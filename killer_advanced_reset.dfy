/**
 * removeConstraintsByRow(x) and then resetConstraintsByRow(x) in the
 * Killer solver give back the state they started from.
 *
 * The starting state is described by its columns as lists: R[h] lists the
 * nodes attached in column h, top to bottom.  Picks(k) lists the nodes the
 * first k column walks of the removal pick: the walk down x's family-k
 * column meets what is left of that column's list once the rows picked
 * before have been detached, and picks the nodes of the rows that are not
 * cage-locked.  The removal detaches the spans of Picks(4) in order
 * (CoverRowPlan).  The reset walks the same four columns in the same
 * order; each column is whole again when its turn comes, and the rows it
 * finds constraint-locked are exactly the rows the removal picked there
 * (UncoverRowPlan).  So the reset reattaches the detached nodes in the
 * order they left, and Relink.LiftDropAll gives back every pointer and
 * every count (RemoveReset).
 */
module KillerAdvancedReset {
  import opened Rings
  import opened LinkedMatrix
  import opened Relink
  import opened RingFilter
  import opened KillerAdvancedModel
  import opened KillerAdvancedUndo

  /**
   * The number of column walks removeConstraintsByRow(x) and
   * resetConstraintsByRow(x) make: one per node of row x.
   */
  function Walks(x: int): (n: int)
    ensures n == 4
  {
    4
  }

  /** The column of row x's family-k node. */
  function RowColumn(cols: seq<int>, x: int, k: int): int
    requires 0 <= x && 4 * x + 4 <= |cols| && 0 <= k < 4
  {
    cols[4 * x + k]
  }

  /** Row x's four nodes lie in four different columns. */
  lemma RowColumnsApart(cols: seq<int>, x: int, k: int, k': int)
    requires RowsApart(cols) && 0 <= x < |cols| / 4 && 0 <= k < 4 && 0 <= k' < 4 && k != k'
    ensures RowColumn(cols, x, k) != RowColumn(cols, x, k')
  {
    assert Apart(cols, x);
  }

  /** Two nodes of one row in one column are the same node. */
  lemma OneNodePerColumn(cols: seq<int>, w: int, u: int, v: int, h: int)
    requires RowsApart(cols) && IsNode(cols, w, u) && IsNode(cols, w, v)
    requires RowOf(w, u) == RowOf(w, v) && cols[u - w] == h && cols[v - w] == h
    ensures u == v
  {
    var y := RowOf(w, u);
    RowInRange(w, u, |cols| / 4);
    assert Apart(cols, y);
    assert u - w == 4 * y + FamilyOf(w, u) && v - w == 4 * y + FamilyOf(w, v);
  }

  /** A node of Picked is a node of qs whose row's flag is want, and the other way round. */
  lemma {:induction false} PickedHas(cols: seq<int>, w: int, qs: seq<int>, flags: seq<bool>, want: bool, v: int)
    requires 4 * |flags| == |cols| && forall i :: 0 <= i < |qs| ==> IsNode(cols, w, qs[i])
    ensures v in Picked(cols, w, qs, flags, want) <==> v in qs && 0 <= RowOf(w, v) < |flags| && flags[RowOf(w, v)] == want
  {
    if |qs| > 0 {
      RowInRange(w, qs[0], |flags|);
      PickedHas(cols, w, qs[1..], flags, want, v);
      assert qs == [qs[0]] + qs[1..];
    }
  }

  /** Picking from a decreasing list gives a decreasing list. */
  lemma {:induction false} PickedDecreasing(cols: seq<int>, w: int, qs: seq<int>, flags: seq<bool>, want: bool)
    requires 4 * |flags| == |cols| && (forall i :: 0 <= i < |qs| ==> IsNode(cols, w, qs[i])) && Decreasing(qs)
    ensures Decreasing(Picked(cols, w, qs, flags, want))
  {
    if |qs| > 0 {
      DecreasingTail(qs);
      PickedDecreasing(cols, w, qs[1..], flags, want);
      var rest := Picked(cols, w, qs[1..], flags, want);
      forall j | 0 <= j < |rest|
        ensures rest[j] < qs[0]
      {
        assert rest[j] in rest;
        PickedHas(cols, w, qs[1..], flags, want, rest[j]);
        var k :| 0 <= k < |qs[1..]| && qs[1..][k] == rest[j];
        assert qs[k + 1] == rest[j];
      }
    }
  }

  /** The rows of the picked nodes are the rows of qs whose flag is want. */
  lemma PickedRows(cols: seq<int>, w: int, qs: seq<int>, flags: seq<bool>, want: bool, y: int)
    requires 4 * |flags| == |cols| && forall i :: 0 <= i < |qs| ==> IsNode(cols, w, qs[i])
    ensures y in RowsOf(w, Picked(cols, w, qs, flags, want)) <==> y in RowsOf(w, qs) && 0 <= y < |flags| && flags[y] == want
  {
    var ps := Picked(cols, w, qs, flags, want);
    if y in RowsOf(w, ps) {
      var i :| 0 <= i < |ps| && RowsOf(w, ps)[i] == y;
      assert ps[i] in ps;
      PickedHas(cols, w, qs, flags, want, ps[i]);
      var k :| 0 <= k < |qs| && qs[k] == ps[i];
      assert RowsOf(w, qs)[k] == y;
    }
    if y in RowsOf(w, qs) && 0 <= y < |flags| && flags[y] == want {
      var k :| 0 <= k < |qs| && RowsOf(w, qs)[k] == y;
      assert qs[k] in qs;
      PickedHas(cols, w, qs, flags, want, qs[k]);
      var i :| 0 <= i < |ps| && ps[i] == qs[k];
      assert RowsOf(w, ps)[i] == y;
    }
  }

  /**
   * Picking by flags f from xs, when a node's flag in f says exactly that
   * it is not in D and its flag in g is c, is picking by g from xs
   * without D.
   */
  lemma {:induction false} PickedWithout(cols: seq<int>, w: int, xs: seq<int>, D: seq<int>, f: seq<bool>, a: bool, g: seq<bool>, c: bool)
    requires 4 * |f| == |cols| && 4 * |g| == |cols| && forall i :: 0 <= i < |xs| ==> IsNode(cols, w, xs[i])
    requires forall i :: 0 <= i < |xs| ==> 0 <= RowOf(w, xs[i]) < |f| && ((f[RowOf(w, xs[i])] == a) <==> xs[i] !in D && g[RowOf(w, xs[i])] == c)
    ensures forall i :: 0 <= i < |Without(xs, D)| ==> IsNode(cols, w, Without(xs, D)[i])
    ensures Picked(cols, w, xs, f, a) == Picked(cols, w, Without(xs, D), g, c)
  {
    var ys := Without(xs, D);
    forall i | 0 <= i < |ys|
      ensures IsNode(cols, w, ys[i])
    {
      assert ys[i] in ys;
      WithoutHas(xs, D, ys[i]);
    }
    if |xs| > 0 {
      var rest := xs[1..];
      forall i | 0 <= i < |rest|
        ensures IsNode(cols, w, rest[i]) && 0 <= RowOf(w, rest[i]) < |f| && ((f[RowOf(w, rest[i])] == a) <==> rest[i] !in D && g[RowOf(w, rest[i])] == c)
      {
        assert rest[i] == xs[i + 1];
      }
      PickedWithout(cols, w, rest, D, f, a, g, c);
      PickedHead(cols, w, xs[0], rest, f, a);
      assert xs == [xs[0]] + rest;
      if xs[0] in D {
        assert ys == Without(rest, D);
      } else {
        assert ys == [xs[0]] + Without(rest, D);
        PickedHead(cols, w, xs[0], Without(rest, D), g, c);
      }
    }
  }

  /** The requirements shared by the plan of a removal: the lists, the cage locks and the row. */
  ghost predicate Plan(cols: seq<int>, w: int, R: seq<seq<int>>, cage: seq<bool>, x: int)
  {
    0 < w && Columns(cols, w) && RowsApart(cols) && Columned(cols, w, R) && 4 * |cage| == |cols| && 0 <= x < |cols| / 4
  }

  /** What the walk down x's family-k column picks once the rows of before are detached. */
  function Block(cols: seq<int>, w: int, R: seq<seq<int>>, cage: seq<bool>, x: int, k: int, before: seq<int>): (ps: seq<int>)
    requires Plan(cols, w, R, cage, x) && 0 <= k < 4 && forall i :: 0 <= i < |before| ==> IsNode(cols, w, before[i])
    ensures forall i :: 0 <= i < |ps| ==> IsNode(cols, w, ps[i])
  {
    var h := RowColumn(cols, x, k);
    WithoutInColumn(cols, w, h, R[h], Spans(cols, w, before));
    Picked(cols, w, Without(R[h], Spans(cols, w, before)), cage, false)
  }

  /** The nodes the first k column walks of removeConstraintsByRow(x) pick, walk after walk. */
  function Picks(cols: seq<int>, w: int, R: seq<seq<int>>, cage: seq<bool>, x: int, k: int): (ps: seq<int>)
    requires Plan(cols, w, R, cage, x) && 0 <= k <= 4
    ensures forall i :: 0 <= i < |ps| ==> IsNode(cols, w, ps[i])
    decreases k
  {
    if k == 0 then []
    else
      var before := Picks(cols, w, R, cage, x, k - 1);
      before + Block(cols, w, R, cage, x, k - 1, before)
  }

  /** The lists of x's first k columns, one after another: the nodes the first k reset walks meet. */
  function Met(cols: seq<int>, w: int, R: seq<seq<int>>, x: int, k: int): seq<int>
    requires Columns(cols, w) && |R| == w && 0 <= x < |cols| / 4 && 0 <= k <= 4
    decreases k
  {
    if k == 0 then [] else Met(cols, w, R, x, k - 1) + R[RowColumn(cols, x, k - 1)]
  }

  /** Every node of ps lies on the lists of the first k columns and its row is not cage-locked. */
  ghost predicate OnMet(cols: seq<int>, w: int, R: seq<seq<int>>, cage: seq<bool>, x: int, k: int, ps: seq<int>)
    requires Plan(cols, w, R, cage, x) && 0 <= k <= 4
  {
    forall i :: 0 <= i < |ps| ==> ps[i] in Met(cols, w, R, x, k) && 0 <= RowOf(w, ps[i]) < |cage| && !cage[RowOf(w, ps[i])]
  }

  /** No node of ps lies in the column of walk k or a later one. */
  ghost predicate Ahead(cols: seq<int>, w: int, x: int, k: int, ps: seq<int>)
    requires 0 <= x && 4 * x + 4 <= |cols| && 0 <= k <= 4 && forall i :: 0 <= i < |ps| ==> IsNode(cols, w, ps[i])
  {
    forall i, k' :: 0 <= i < |ps| && k <= k' < 4 ==> IsNode(cols, w, ps[i]) && cols[ps[i] - w] != RowColumn(cols, x, k')
  }

  /** Every row met in the first k columns that is not cage-locked is a row of ps. */
  ghost predicate Covered(cols: seq<int>, w: int, R: seq<seq<int>>, cage: seq<bool>, x: int, k: int, ps: seq<int>)
    requires Plan(cols, w, R, cage, x) && 0 <= k <= 4
  {
    CoveredBy(w, Met(cols, w, R, x, k), cage, ps)
  }

  /** Every node of M whose row is not cage-locked has its row among those of ps. */
  ghost predicate CoveredBy(w: int, M: seq<int>, cage: seq<bool>, ps: seq<int>)
  {
    forall u :: u in M && 0 <= RowOf(w, u) < |cage| && !cage[RowOf(w, u)] ==> RowOf(w, u) in RowsOf(w, ps)
  }

  /**
   * What the picks of the first k walks satisfy: their rows are distinct,
   * each lies on the lists met and its row is not cage-locked, none lies in
   * a column of a later walk, and every row met that is not cage-locked
   * has been picked.
   */
  ghost predicate Planned(cols: seq<int>, w: int, R: seq<seq<int>>, cage: seq<bool>, x: int, k: int, ps: seq<int>)
    requires Plan(cols, w, R, cage, x) && 0 <= k <= 4
  {
    (forall i :: 0 <= i < |ps| ==> IsNode(cols, w, ps[i])) &&
    RowsDistinct(w, ps) && OnMet(cols, w, R, cage, x, k, ps) && Ahead(cols, w, x, k, ps) && Covered(cols, w, R, cage, x, k, ps)
  }

  /** The nodes of a block lie on the column's list, outside the spans of before, in the column, rows not cage-locked. */
  lemma BlockHas(cols: seq<int>, w: int, R: seq<seq<int>>, cage: seq<bool>, x: int, k: int, before: seq<int>, v: int)
    requires Plan(cols, w, R, cage, x) && 0 <= k < 4 && forall i :: 0 <= i < |before| ==> IsNode(cols, w, before[i])
    ensures var h := RowColumn(cols, x, k);
      v in Block(cols, w, R, cage, x, k, before) <==>
        v in R[h] && v !in Spans(cols, w, before) && 0 <= RowOf(w, v) < |cage| && !cage[RowOf(w, v)]
    ensures v in Block(cols, w, R, cage, x, k, before) ==> IsNode(cols, w, v) && cols[v - w] == RowColumn(cols, x, k)
  {
    var h := RowColumn(cols, x, k);
    var D := Spans(cols, w, before);
    WithoutInColumn(cols, w, h, R[h], D);
    PickedHas(cols, w, Without(R[h], D), cage, false, v);
    WithoutHas(R[h], D, v);
    if v in R[h] {
      ListedOnRing(cols, w, R, h, v);
    }
  }

  /** The nodes of a block strictly decrease. */
  lemma BlockDecreasing(cols: seq<int>, w: int, R: seq<seq<int>>, cage: seq<bool>, x: int, k: int, before: seq<int>)
    requires Plan(cols, w, R, cage, x) && 0 <= k < 4 && forall i :: 0 <= i < |before| ==> IsNode(cols, w, before[i])
    ensures Decreasing(Block(cols, w, R, cage, x, k, before))
  {
    var h := RowColumn(cols, x, k);
    var D := Spans(cols, w, before);
    assert Decreasing(R[h]) && InColumn(cols, w, h, R[h]);
    WithoutDecreasing(R[h], D);
    WithoutInColumn(cols, w, h, R[h], D);
    PickedDecreasing(cols, w, Without(R[h], D), cage, false);
  }

  /** Concatenating two lists of distinct rows, no row in both, gives distinct rows. */
  lemma RowsDistinctAppend(w: int, a: seq<int>, c: seq<int>)
    requires RowsDistinct(w, a) && RowsDistinct(w, c)
    requires forall i, j :: 0 <= i < |a| && 0 <= j < |c| ==> RowOf(w, a[i]) != RowOf(w, c[j])
    ensures RowsDistinct(w, a + c)
  {
    var ps := a + c;
    forall i, j | 0 <= i < j < |ps|
      ensures RowOf(w, ps[i]) != RowOf(w, ps[j])
    {
      if j < |a| {
        assert ps[i] == a[i] && ps[j] == a[j];
      } else if i < |a| {
        assert ps[i] == a[i] && ps[j] == c[j - |a|];
      } else {
        assert ps[i] == c[i - |a|] && ps[j] == c[j - |a|];
      }
    }
  }

  /** The rows of a block are distinct. */
  lemma BlockRows(cols: seq<int>, w: int, R: seq<seq<int>>, cage: seq<bool>, x: int, k: int, before: seq<int>)
    requires Plan(cols, w, R, cage, x) && 0 <= k < 4 && forall i :: 0 <= i < |before| ==> IsNode(cols, w, before[i])
    ensures RowsDistinct(w, Block(cols, w, R, cage, x, k, before))
  {
    var B := Block(cols, w, R, cage, x, k, before);
    BlockDecreasing(cols, w, R, cage, x, k, before);
    forall i, j | 0 <= i < j < |B|
      ensures RowOf(w, B[i]) != RowOf(w, B[j])
    {
      assert B[i] in B && B[j] in B && B[i] > B[j];
      BlockRowsApart(cols, w, R, cage, x, k, before, B[i], B[j]);
    }
  }

  /** Two different nodes of a block lie in different rows. */
  lemma BlockRowsApart(cols: seq<int>, w: int, R: seq<seq<int>>, cage: seq<bool>, x: int, k: int, before: seq<int>, u: int, v: int)
    requires Plan(cols, w, R, cage, x) && 0 <= k < 4 && forall i :: 0 <= i < |before| ==> IsNode(cols, w, before[i])
    requires u in Block(cols, w, R, cage, x, k, before) && v in Block(cols, w, R, cage, x, k, before) && u != v
    ensures RowOf(w, u) != RowOf(w, v)
  {
    BlockHas(cols, w, R, cage, x, k, before, u);
    BlockHas(cols, w, R, cage, x, k, before, v);
    if RowOf(w, u) == RowOf(w, v) {
      OneNodePerColumn(cols, w, u, v, RowColumn(cols, x, k));
    }
  }

  /** A block shares no row with the nodes before it when none of them is in the block's column. */
  lemma BlockApart(cols: seq<int>, w: int, R: seq<seq<int>>, cage: seq<bool>, x: int, k: int, before: seq<int>)
    requires Plan(cols, w, R, cage, x) && 0 <= k < 4 && forall i :: 0 <= i < |before| ==> IsNode(cols, w, before[i])
    requires forall i :: 0 <= i < |before| ==> IsNode(cols, w, before[i]) && cols[before[i] - w] != RowColumn(cols, x, k)
    ensures var B := Block(cols, w, R, cage, x, k, before);
      forall i, j :: 0 <= i < |before| && 0 <= j < |B| ==> RowOf(w, before[i]) != RowOf(w, B[j])
  {
    var B := Block(cols, w, R, cage, x, k, before);
    forall i, j | 0 <= i < |before| && 0 <= j < |B|
      ensures RowOf(w, before[i]) != RowOf(w, B[j])
    {
      var v := B[j];
      assert v in B;
      BlockHas(cols, w, R, cage, x, k, before, v);
      if RowOf(w, before[i]) == RowOf(w, v) {
        RowsSpans(cols, w, before, i, v);
      }
    }
  }

  /** The rows picked in the first k + 1 walks are distinct. */
  lemma StepRows(cols: seq<int>, w: int, R: seq<seq<int>>, cage: seq<bool>, x: int, k: int, before: seq<int>)
    requires Plan(cols, w, R, cage, x) && 0 <= k < 4 && forall i :: 0 <= i < |before| ==> IsNode(cols, w, before[i])
    requires RowsDistinct(w, before) && Ahead(cols, w, x, k, before)
    ensures RowsDistinct(w, before + Block(cols, w, R, cage, x, k, before))
  {
    BlockRows(cols, w, R, cage, x, k, before);
    BlockApart(cols, w, R, cage, x, k, before);
    RowsDistinctAppend(w, before, Block(cols, w, R, cage, x, k, before));
  }

  /** Each node picked in the first k + 1 walks lies on the lists met and its row is not cage-locked. */
  lemma StepMet(cols: seq<int>, w: int, R: seq<seq<int>>, cage: seq<bool>, x: int, k: int, before: seq<int>)
    requires Plan(cols, w, R, cage, x) && 0 <= k < 4 && forall i :: 0 <= i < |before| ==> IsNode(cols, w, before[i])
    requires OnMet(cols, w, R, cage, x, k, before)
    ensures OnMet(cols, w, R, cage, x, k + 1, before + Block(cols, w, R, cage, x, k, before))
  {
    var B := Block(cols, w, R, cage, x, k, before);
    forall i | 0 <= i < |B|
      ensures B[i] in R[RowColumn(cols, x, k)] && 0 <= RowOf(w, B[i]) < |cage| && !cage[RowOf(w, B[i])]
    {
      assert B[i] in B;
      BlockHas(cols, w, R, cage, x, k, before, B[i]);
    }
    OnMetAppend(cols, w, R, cage, x, k, before, B);
  }

  /** Uncaged nodes on walk k's list, after nodes on the lists of the walks before, are all on the lists of the first k + 1 walks. */
  lemma OnMetAppend(cols: seq<int>, w: int, R: seq<seq<int>>, cage: seq<bool>, x: int, k: int, before: seq<int>, B: seq<int>)
    requires Plan(cols, w, R, cage, x) && 0 <= k < 4 && OnMet(cols, w, R, cage, x, k, before)
    requires forall i :: 0 <= i < |B| ==> B[i] in R[RowColumn(cols, x, k)] && 0 <= RowOf(w, B[i]) < |cage| && !cage[RowOf(w, B[i])]
    ensures OnMet(cols, w, R, cage, x, k + 1, before + B)
  {
    var ps := before + B;
    var n := |before|;
    assert Met(cols, w, R, x, k + 1) == Met(cols, w, R, x, k) + R[RowColumn(cols, x, k)];
    forall i | 0 <= i < |ps|
      ensures ps[i] in Met(cols, w, R, x, k + 1) && 0 <= RowOf(w, ps[i]) < |cage| && !cage[RowOf(w, ps[i])]
    {
      if i < n {
        assert ps[i] == before[i];
      } else {
        assert ps[i] == B[i - n];
      }
    }
  }

  /** Nodes in walk k's column, after nodes ahead of walk k, leave all of them ahead of walk k + 1. */
  lemma AheadAppend(cols: seq<int>, w: int, x: int, k: int, before: seq<int>, B: seq<int>)
    requires RowsApart(cols) && 0 <= x < |cols| / 4 && 0 <= k < 4
    requires forall i :: 0 <= i < |before| ==> IsNode(cols, w, before[i])
    requires forall i :: 0 <= i < |B| ==> IsNode(cols, w, B[i]) && cols[B[i] - w] == RowColumn(cols, x, k)
    requires Ahead(cols, w, x, k, before)
    ensures forall i :: 0 <= i < |before + B| ==> IsNode(cols, w, (before + B)[i])
    ensures Ahead(cols, w, x, k + 1, before + B)
  {
    var ps := before + B;
    var n := |before|;
    forall i | 0 <= i < |ps|
      ensures IsNode(cols, w, ps[i])
    {
      if i < n {
        assert ps[i] == before[i];
      } else {
        assert ps[i] == B[i - n];
      }
    }
    forall i, k' | 0 <= i < |ps| && k + 1 <= k' < 4
      ensures cols[ps[i] - w] != RowColumn(cols, x, k')
    {
      if i < n {
        assert ps[i] == before[i];
      } else {
        assert ps[i] == B[i - n];
        RowColumnsApart(cols, x, k, k');
      }
    }
  }

  /** No node picked in the first k + 1 walks lies in the column of a later walk. */
  lemma StepColumns(cols: seq<int>, w: int, R: seq<seq<int>>, cage: seq<bool>, x: int, k: int, before: seq<int>)
    requires Plan(cols, w, R, cage, x) && 0 <= k < 4 && forall i :: 0 <= i < |before| ==> IsNode(cols, w, before[i])
    requires Ahead(cols, w, x, k, before)
    ensures Ahead(cols, w, x, k + 1, before + Block(cols, w, R, cage, x, k, before))
  {
    var B := Block(cols, w, R, cage, x, k, before);
    forall i | 0 <= i < |B|
      ensures IsNode(cols, w, B[i]) && cols[B[i] - w] == RowColumn(cols, x, k)
    {
      assert B[i] in B;
      BlockHas(cols, w, R, cage, x, k, before, B[i]);
    }
    AheadAppend(cols, w, x, k, before, B);
  }

  /** Every row met in the first k + 1 columns that is not cage-locked has been picked. */
  lemma StepCovered(cols: seq<int>, w: int, R: seq<seq<int>>, cage: seq<bool>, x: int, k: int, before: seq<int>)
    requires Plan(cols, w, R, cage, x) && 0 <= k < 4 && forall i :: 0 <= i < |before| ==> IsNode(cols, w, before[i])
    requires Covered(cols, w, R, cage, x, k, before)
    ensures Covered(cols, w, R, cage, x, k + 1, before + Block(cols, w, R, cage, x, k, before))
  {
    var B := Block(cols, w, R, cage, x, k, before);
    var h := RowColumn(cols, x, k);
    forall v | v in R[h] && v !in Spans(cols, w, before) && 0 <= RowOf(w, v) < |cage| && !cage[RowOf(w, v)]
      ensures v in B
    {
      BlockHas(cols, w, R, cage, x, k, before, v);
    }
    CoveredAppend(cols, w, R, cage, x, k, before, B);
  }

  /** Appending every uncaged node of walk k's list that no earlier pick's row spans keeps every met row covered. */
  lemma CoveredAppend(cols: seq<int>, w: int, R: seq<seq<int>>, cage: seq<bool>, x: int, k: int, before: seq<int>, B: seq<int>)
    requires Plan(cols, w, R, cage, x) && 0 <= k < 4 && forall i :: 0 <= i < |before| ==> IsNode(cols, w, before[i])
    requires Covered(cols, w, R, cage, x, k, before)
    requires forall v :: v in R[RowColumn(cols, x, k)] && v !in Spans(cols, w, before) && 0 <= RowOf(w, v) < |cage| && !cage[RowOf(w, v)] ==> v in B
    ensures Covered(cols, w, R, cage, x, k + 1, before + B)
  {
    CoveredByAppend(cols, w, cage, Met(cols, w, R, x, k), R[RowColumn(cols, x, k)], before, B);
  }

  /** The same, for any list M0 already covered and any list M appended to it. */
  lemma CoveredByAppend(cols: seq<int>, w: int, cage: seq<bool>, M0: seq<int>, M: seq<int>, before: seq<int>, B: seq<int>)
    requires |cols| % 4 == 0 && forall i :: 0 <= i < |before| ==> IsNode(cols, w, before[i])
    requires CoveredBy(w, M0, cage, before)
    requires forall v :: v in M && v !in Spans(cols, w, before) && 0 <= RowOf(w, v) < |cage| && !cage[RowOf(w, v)] ==> v in B
    ensures CoveredBy(w, M0 + M, cage, before + B)
  {
    RowsOfAppend(w, before, B);
    forall u | u in M0 + M && 0 <= RowOf(w, u) < |cage| && !cage[RowOf(w, u)]
      ensures RowOf(w, u) in RowsOf(w, before + B)
    {
      if u !in M0 {
        SpannedRow(cols, w, before, B, u);
      }
    }
  }

  /** A node spanned by a row of before, or one of B, has its row among those of before + B. */
  lemma SpannedRow(cols: seq<int>, w: int, before: seq<int>, B: seq<int>, u: int)
    requires |cols| % 4 == 0 && forall i :: 0 <= i < |before| ==> IsNode(cols, w, before[i])
    requires u in Spans(cols, w, before) || u in B
    ensures RowOf(w, u) in RowsOf(w, before + B)
  {
    RowsOfAppend(w, before, B);
    if u in Spans(cols, w, before) {
      SpansRows(cols, w, before, u);
      var i :| 0 <= i < |before| && RowOf(w, before[i]) == RowOf(w, u) && before[i] != u;
      assert RowsOf(w, before)[i] == RowOf(w, u);
    } else {
      var j :| 0 <= j < |B| && B[j] == u;
      assert RowsOf(w, B)[j] == RowOf(w, u);
    }
  }

  /** The picks of the first k walks are as Planned says. */
  lemma {:induction false} PicksPlanned(cols: seq<int>, w: int, R: seq<seq<int>>, cage: seq<bool>, x: int, k: int)
    requires Plan(cols, w, R, cage, x) && 0 <= k <= 4
    ensures Planned(cols, w, R, cage, x, k, Picks(cols, w, R, cage, x, k))
    decreases k
  {
    if k > 0 {
      var before := Picks(cols, w, R, cage, x, k - 1);
      PicksPlanned(cols, w, R, cage, x, k - 1);
      StepRows(cols, w, R, cage, x, k - 1, before);
      StepMet(cols, w, R, cage, x, k - 1, before);
      StepColumns(cols, w, R, cage, x, k - 1, before);
      StepCovered(cols, w, R, cage, x, k - 1, before);
    }
  }

  /** The lists met by the first k walks are among those met by the first k' walks. */
  lemma {:induction false} MetGrows(cols: seq<int>, w: int, R: seq<seq<int>>, x: int, k: int, k': int, u: int)
    requires Columns(cols, w) && |R| == w && 0 <= x < |cols| / 4 && 0 <= k <= k' <= 4 && u in Met(cols, w, R, x, k)
    ensures u in Met(cols, w, R, x, k')
    decreases k'
  {
    if k < k' {
      MetGrows(cols, w, R, x, k, k' - 1, u);
    }
  }

  /** All four nodes of row y are on their columns' lists. */
  ghost predicate Whole(cols: seq<int>, w: int, R: seq<seq<int>>, y: int)
  {
    0 <= y && 4 * y + 4 <= |cols| && forall f :: 0 <= f < 4 ==> OnRing(cols, w, R, Node(w, y, f))
  }

  /** A node in the spans of whole rows is on its column's list. */
  lemma SpansOnRing(cols: seq<int>, w: int, R: seq<seq<int>>, ps: seq<int>, v: int)
    requires |cols| % 4 == 0 && forall i :: 0 <= i < |ps| ==> IsNode(cols, w, ps[i])
    requires forall i :: 0 <= i < |ps| ==> Whole(cols, w, R, RowOf(w, ps[i]))
    requires v in Spans(cols, w, ps)
    ensures OnRing(cols, w, R, v)
  {
    SpansRows(cols, w, ps, v);
    var i :| 0 <= i < |ps| && RowOf(w, ps[i]) == RowOf(w, v) && ps[i] != v;
    NodeOfRow(w, RowOf(w, v), v);
    assert Whole(cols, w, R, RowOf(w, ps[i]));
  }

  /**
   * The state removeConstraintsByRow(x) starts from, as the proof needs it:
   * R lists every column, and every row met in x's four columns is whole
   * and not constraint-locked.
   */
  ghost predicate Ready(s: KState, cols: seq<int>, w: int, R: seq<seq<int>>, x: int)
  {
    Fit(s, cols, w) && Plan(cols, w, R, s.cageLock, x) && RingsWithout(s.links, cols, w, R, []) && Clear(cols, w, R, s.conLock, x)
  }

  /** Every row met in x's four columns is whole and its flag in con is clear. */
  ghost predicate Clear(cols: seq<int>, w: int, R: seq<seq<int>>, con: seq<bool>, x: int)
    requires Columns(cols, w) && |R| == w && 0 <= x < |cols| / 4
  {
    forall u :: u in Met(cols, w, R, x, Walks(x)) ==> Whole(cols, w, R, RowOf(w, u)) && RowOf(w, u) < |con| && !con[RowOf(w, u)]
  }

  /** The rows picked by the first k walks are whole and not constraint-locked. */
  lemma PicksReady(cols: seq<int>, w: int, R: seq<seq<int>>, cage: seq<bool>, con: seq<bool>, x: int, k: int)
    requires Plan(cols, w, R, cage, x) && Clear(cols, w, R, con, x) && 0 <= k <= 4
    ensures var ps := Picks(cols, w, R, cage, x, k);
      RowsDistinct(w, ps) &&
      forall i :: 0 <= i < |ps| ==> Whole(cols, w, R, RowOf(w, ps[i])) && RowOf(w, ps[i]) < |con| && !con[RowOf(w, ps[i])]
  {
    var ps := Picks(cols, w, R, cage, x, k);
    PicksPlanned(cols, w, R, cage, x, k);
    forall i | 0 <= i < |ps|
      ensures Whole(cols, w, R, RowOf(w, ps[i])) && RowOf(w, ps[i]) < |con| && !con[RowOf(w, ps[i])]
    {
      assert ps[i] in Met(cols, w, R, x, k);
      MetGrows(cols, w, R, x, k, Walks(x), ps[i]);
    }
  }

  /** Distinct nodes E on the lists, after D with no repeat in D + E, are fresh after D. */
  lemma FreshAfter(cols: seq<int>, w: int, R: seq<seq<int>>, D: seq<int>, E: seq<int>)
    requires forall i, j :: 0 <= i < j < |D + E| ==> (D + E)[i] != (D + E)[j]
    requires forall i :: 0 <= i < |E| ==> OnRing(cols, w, R, E[i])
    ensures FreshOn(cols, w, R, D, E)
  {
    var ds := D + E;
    forall i, j | 0 <= i < |E| && 0 <= j < |D|
      ensures D[j] != E[i]
    {
      assert ds[j] == D[j] && ds[|D| + i] == E[i];
    }
    forall i, j | 0 <= i < j < |E|
      ensures E[i] != E[j]
    {
      assert ds[|D| + i] == E[i] && ds[|D| + j] == E[j];
    }
  }

  /** The spans of whole rows B, distinct from the rows before, are on the lists and fresh after the spans of before. */
  lemma SpansFresh(cols: seq<int>, w: int, R: seq<seq<int>>, before: seq<int>, B: seq<int>)
    requires |cols| % 4 == 0 && forall i :: 0 <= i < |before| ==> IsNode(cols, w, before[i])
    requires forall i :: 0 <= i < |B| ==> IsNode(cols, w, B[i]) && Whole(cols, w, R, RowOf(w, B[i]))
    requires RowsDistinct(w, before + B)
    ensures FreshOn(cols, w, R, Spans(cols, w, before), Spans(cols, w, B))
  {
    var E := Spans(cols, w, B);
    SpansAppend(cols, w, before, B);
    SpansDistinct(cols, w, before + B);
    forall i | 0 <= i < |E|
      ensures OnRing(cols, w, R, E[i])
    {
      assert E[i] in E;
      SpansOnRing(cols, w, R, B, E[i]);
    }
    FreshAfter(cols, w, R, Spans(cols, w, before), E);
  }

  /**
   * removeConstraintsByCol on walk k's column, once the spans of before are
   * detached: it detaches the spans of the block, and locks its rows.
   */
  lemma CoverPlanStep(t: KState, cols: seq<int>, w: int, R: seq<seq<int>>, x: int, k: int, before: seq<int>)
    requires Fit(t, cols, w) && Plan(cols, w, R, t.cageLock, x) && 0 <= k < 4 && forall i :: 0 <= i < |before| ==> IsNode(cols, w, before[i])
    requires RingsWithout(t.links, cols, w, R, Spans(cols, w, before))
    ensures var B := Block(cols, w, R, t.cageLock, x, k, before);
      var t' := Cover(t, cols, w, RowColumn(cols, x, k));
      t'.links == DropAll(t.links, cols, w, Spans(cols, w, B)) &&
      forall y :: 0 <= y < |t.conLock| ==> t'.conLock[y] == (t.conLock[y] || y in RowsOf(w, B))
  {
    var h := RowColumn(cols, x, k);
    var xs := Without(R[h], Spans(cols, w, before));
    var B := Block(cols, w, R, t.cageLock, x, k, before);
    assert Listed(R, h);
    RingWalk(t.links, cols, w, h, xs);
    var q := t.links.below[h];
    CoverLinks(t, cols, w, q);
    forall y | 0 <= y < |t.conLock|
      ensures y in RowsOf(w, B) <==> y in RowsOf(w, xs) && !t.cageLock[y]
    {
      PickedRows(cols, w, xs, t.cageLock, false, y);
    }
  }

  /** The spans walk k - 1 detaches are fresh after those detached before. */
  lemma NextFresh(cols: seq<int>, w: int, R: seq<seq<int>>, cage: seq<bool>, con: seq<bool>, x: int, k: int)
    requires Plan(cols, w, R, cage, x) && Clear(cols, w, R, con, x) && 0 < k <= 4
    ensures var P0 := Picks(cols, w, R, cage, x, k - 1);
      FreshOn(cols, w, R, Spans(cols, w, P0), Spans(cols, w, Block(cols, w, R, cage, x, k - 1, P0)))
  {
    var P0 := Picks(cols, w, R, cage, x, k - 1);
    var B := Block(cols, w, R, cage, x, k - 1, P0);
    var P := Picks(cols, w, R, cage, x, k);
    assert P0 + B == P;
    PicksReady(cols, w, R, cage, con, x, k);
    forall j | 0 <= j < |B|
      ensures IsNode(cols, w, B[j]) && Whole(cols, w, R, RowOf(w, B[j]))
    {
      IndexAppend(P0, B, P, j);
    }
    SpansFresh(cols, w, R, P0, B);
  }

  /** Nothing detached: the columns hold their lists. */
  lemma RingsNone(L: Links, cols: seq<int>, w: int, R: seq<seq<int>>)
    requires Arena(L, cols, w) && RingsWithout(L, cols, w, R, [])
    ensures |cols| % 4 == 0 ==> Spans(cols, w, []) == [] && RingsWithout(L, cols, w, R, Spans(cols, w, []))
  {
  }

  /** One more walk of the removal, joined to the walks before it. */
  lemma CoverRowNext(s: KState, t0: KState, t: KState, cols: seq<int>, w: int, R: seq<seq<int>>, x: int, k: int, P0: seq<int>, B: seq<int>)
    requires Fit(s, cols, w) && Fit(t0, cols, w) && t0.cageLock == s.cageLock && Plan(cols, w, R, s.cageLock, x) && 0 <= k < 4
    requires forall i :: 0 <= i < |P0| ==> IsNode(cols, w, P0[i])
    requires t0.links == DropAll(s.links, cols, w, Spans(cols, w, P0)) && RingsWithout(t0.links, cols, w, R, Spans(cols, w, P0))
    requires forall y :: 0 <= y < |s.conLock| ==> t0.conLock[y] == (s.conLock[y] || y in RowsOf(w, P0))
    requires B == Block(cols, w, R, s.cageLock, x, k, P0) && t == Cover(t0, cols, w, RowColumn(cols, x, k))
    requires FreshOn(cols, w, R, Spans(cols, w, P0), Spans(cols, w, B))
    ensures forall i :: 0 <= i < |P0 + B| ==> IsNode(cols, w, (P0 + B)[i])
    ensures t.links == DropAll(s.links, cols, w, Spans(cols, w, P0 + B))
    ensures RingsWithout(t.links, cols, w, R, Spans(cols, w, P0 + B))
    ensures forall y :: 0 <= y < |s.conLock| ==> t.conLock[y] == (s.conLock[y] || y in RowsOf(w, P0 + B))
  {
    CoverPlanStep(t0, cols, w, R, x, k, P0);
    DropAllRings(t0.links, cols, w, R, Spans(cols, w, P0), Spans(cols, w, B));
    SpansAppend(cols, w, P0, B);
    DropAllAppend(s.links, cols, w, Spans(cols, w, P0), Spans(cols, w, B));
    RowsOfAppend(w, P0, B);
  }

  /**
   * The first k walks of removeConstraintsByRow(x) detach, in order, the
   * spans of Picks(k), leave every column holding the rest of its list,
   * and lock exactly the rows of Picks(k).
   */
  lemma {:induction false} CoverRowPlan(s: KState, cols: seq<int>, w: int, R: seq<seq<int>>, x: int, k: int)
    requires Ready(s, cols, w, R, x) && 0 <= k <= 4
    ensures var t := CoverRow(s, cols, w, x, k);
      var P := Picks(cols, w, R, s.cageLock, x, k);
      t.links == DropAll(s.links, cols, w, Spans(cols, w, P)) &&
      RingsWithout(t.links, cols, w, R, Spans(cols, w, P)) &&
      forall y :: 0 <= y < |s.conLock| ==> t.conLock[y] == (s.conLock[y] || y in RowsOf(w, P))
    decreases k
  {
    if k == 0 {
      RingsNone(s.links, cols, w, R);
    } else {
      CoverRowPlan(s, cols, w, R, x, k - 1);
      var t0 := CoverRow(s, cols, w, x, k - 1);
      var P0 := Picks(cols, w, R, s.cageLock, x, k - 1);
      var B := Block(cols, w, R, s.cageLock, x, k - 1, P0);
      var P := P0 + B;
      assert P == Picks(cols, w, R, s.cageLock, x, k);
      NextFresh(cols, w, R, s.cageLock, s.conLock, x, k);
      CoverRowNext(s, t0, CoverRow(s, cols, w, x, k), cols, w, R, x, k - 1, P0, B);
    }
  }

  /** The blocks bs[k], bs[k + 1], ... one after another. */
  function Rest(bs: seq<seq<int>>, k: nat): seq<int>
    decreases |bs| - k
  {
    if k >= |bs| then [] else bs[k] + Rest(bs, k + 1)
  }

  /**
   * bs lists what each of the four walks picks.  The quantifier fires only
   * where a proof names a walk's block, so that blocks are not unfolded
   * where only their order matters.
   */
  ghost predicate Blocks(cols: seq<int>, w: int, R: seq<seq<int>>, cage: seq<bool>, x: int, bs: seq<seq<int>>)
    requires Plan(cols, w, R, cage, x)
  {
    |bs| == 4 &&
    forall k {:trigger Block(cols, w, R, cage, x, k, Picks(cols, w, R, cage, x, k))} :: 0 <= k < 4 ==>
      bs[k] == Block(cols, w, R, cage, x, k, Picks(cols, w, R, cage, x, k))
  }

  /** The blocks of the four walks. */
  function Walked(cols: seq<int>, w: int, R: seq<seq<int>>, cage: seq<bool>, x: int): (bs: seq<seq<int>>)
    requires Plan(cols, w, R, cage, x)
    ensures Blocks(cols, w, R, cage, x, bs)
  {
    seq(4, k requires 0 <= k < 4 => Block(cols, w, R, cage, x, k, Picks(cols, w, R, cage, x, k)))
  }

  /** Concatenation regrouped. */
  lemma Regroup(a: seq<int>, b: seq<int>, c: seq<int>)
    ensures a + (b + c) == (a + b) + c
  {
  }

  /** The blocks bs[0], ..., bs[k - 1] one after another. */
  function Done(bs: seq<seq<int>>, k: nat): seq<int>
    requires k <= |bs|
  {
    if k == 0 then [] else Done(bs, k - 1) + bs[k - 1]
  }

  /** The first k blocks, then the rest, are all the blocks. */
  lemma {:induction false} DoneRest(bs: seq<seq<int>>, k: nat)
    requires k <= |bs|
    ensures Done(bs, k) + Rest(bs, k) == Rest(bs, 0)
  {
    if k > 0 {
      DoneRest(bs, k - 1);
      assert Rest(bs, k - 1) == bs[k - 1] + Rest(bs, k);
      Regroup(Done(bs, k - 1), bs[k - 1], Rest(bs, k));
    }
  }

  /** The picks of the first k + 1 walks are those of the first k, then walk k's block. */
  lemma PicksNext(cols: seq<int>, w: int, R: seq<seq<int>>, cage: seq<bool>, x: int, bs: seq<seq<int>>, k: int)
    requires Plan(cols, w, R, cage, x) && Blocks(cols, w, R, cage, x, bs) && 0 <= k < 4
    ensures Picks(cols, w, R, cage, x, k + 1) == Picks(cols, w, R, cage, x, k) + bs[k]
  {
    assert bs[k] == Block(cols, w, R, cage, x, k, Picks(cols, w, R, cage, x, k));
  }

  /** The picks of the first k walks are their blocks one after another. */
  lemma {:induction false} PicksDone(cols: seq<int>, w: int, R: seq<seq<int>>, cage: seq<bool>, x: int, bs: seq<seq<int>>, k: int)
    requires Plan(cols, w, R, cage, x) && Blocks(cols, w, R, cage, x, bs) && 0 <= k <= 4
    ensures Picks(cols, w, R, cage, x, k) == Done(bs, k)
  {
    if k > 0 {
      PicksDone(cols, w, R, cage, x, bs, k - 1);
      PicksNext(cols, w, R, cage, x, bs, k - 1);
    }
  }

  /** All the picks are all the blocks. */
  lemma PicksAll(cols: seq<int>, w: int, R: seq<seq<int>>, cage: seq<bool>, x: int, bs: seq<seq<int>>)
    requires Plan(cols, w, R, cage, x) && Blocks(cols, w, R, cage, x, bs)
    ensures Picks(cols, w, R, cage, x, Walks(x)) == Rest(bs, 0)
  {
    PicksDone(cols, w, R, cage, x, bs, Walks(x));
    DoneRest(bs, 4);
  }

  /** A node picked by the first k walks lies on the lists they meet and its row is not cage-locked. */
  lemma PicksOnMet(cols: seq<int>, w: int, R: seq<seq<int>>, cage: seq<bool>, x: int, k: int, i: int)
    requires Plan(cols, w, R, cage, x) && 0 <= k <= 4 && 0 <= i < |Picks(cols, w, R, cage, x, k)|
    ensures var p := Picks(cols, w, R, cage, x, k)[i];
      p in Met(cols, w, R, x, k) && 0 <= RowOf(w, p) < |cage| && !cage[RowOf(w, p)]
  {
    PicksPlanned(cols, w, R, cage, x, k);
    assert OnMet(cols, w, R, cage, x, k, Picks(cols, w, R, cage, x, k));
  }

  /** Every row the first k walks meet that is not cage-locked is picked by them. */
  lemma PicksCovered(cols: seq<int>, w: int, R: seq<seq<int>>, cage: seq<bool>, x: int, k: int, u: int)
    requires Plan(cols, w, R, cage, x) && 0 <= k <= 4
    requires u in Met(cols, w, R, x, k) && 0 <= RowOf(w, u) < |cage| && !cage[RowOf(w, u)]
    ensures RowOf(w, u) in RowsOf(w, Picks(cols, w, R, cage, x, k))
  {
    PicksPlanned(cols, w, R, cage, x, k);
    assert Covered(cols, w, R, cage, x, k, Picks(cols, w, R, cage, x, k));
  }

  /** The rows picked by the first k walks are distinct. */
  lemma PicksDistinct(cols: seq<int>, w: int, R: seq<seq<int>>, cage: seq<bool>, x: int, k: int)
    requires Plan(cols, w, R, cage, x) && 0 <= k <= 4
    ensures RowsDistinct(w, Picks(cols, w, R, cage, x, k))
  {
    PicksPlanned(cols, w, R, cage, x, k);
  }

  /** The i-th node of the blocks from k on is the node after the first k blocks' among all of them. */
  lemma RestAt(bs: seq<seq<int>>, k: nat, i: int)
    requires k <= |bs| && 0 <= i < |Rest(bs, k)|
    ensures |Done(bs, k)| + i < |Rest(bs, 0)| && Rest(bs, k)[i] == Rest(bs, 0)[|Done(bs, k)| + i]
  {
    DoneRest(bs, k);
    IndexAppend(Done(bs, k), Rest(bs, k), Rest(bs, 0), i);
  }

  /** Indexing the second part of a concatenation. */
  lemma IndexAppend(a: seq<int>, b: seq<int>, c: seq<int>, i: int)
    requires a + b == c && 0 <= i < |b|
    ensures |a| + i < |c| && b[i] == c[|a| + i]
  {
  }

  /** Indexing the first part of a concatenation. */
  lemma IndexPrefix(a: seq<int>, b: seq<int>, c: seq<int>, j: int)
    requires a + b == c && 0 <= j < |a|
    ensures j < |c| && a[j] == c[j]
  {
  }

  /** A node on column h's list lies in column h. */
  lemma ListedColumn(cols: seq<int>, w: int, R: seq<seq<int>>, h: int, v: int)
    requires Columned(cols, w, R) && 0 <= h < w && v in R[h]
    ensures IsNode(cols, w, v) && cols[v - w] == h
  {
    assert InColumn(cols, w, h, R[h]);
    var i :| 0 <= i < |R[h]| && R[h][i] == v;
  }

  /** The i-th node of the blocks from k on lies in a block j >= k. */
  lemma {:induction false} RestIn(bs: seq<seq<int>>, k: nat, i: int) returns (j: int)
    requires 0 <= i < |Rest(bs, k)|
    ensures k <= j < |bs| && Rest(bs, k)[i] in bs[j]
    decreases |bs| - k
  {
    if i < |bs[k]| {
      assert Rest(bs, k)[i] == bs[k][i];
      j := k;
    } else {
      assert Rest(bs, k)[i] == Rest(bs, k + 1)[i - |bs[k]|];
      j := RestIn(bs, k + 1, i - |bs[k]|);
    }
  }

  /** A node of walk j's block lies on walk j's list, in walk j's column, and its row is not cage-locked. */
  lemma BlockAt(cols: seq<int>, w: int, R: seq<seq<int>>, cage: seq<bool>, x: int, bs: seq<seq<int>>, j: int, p: int)
    requires Plan(cols, w, R, cage, x) && Blocks(cols, w, R, cage, x, bs) && 0 <= j < 4 && p in bs[j]
    ensures IsNode(cols, w, p) && p in R[RowColumn(cols, x, j)] && cols[p - w] == RowColumn(cols, x, j)
    ensures 0 <= RowOf(w, p) < |cage| && !cage[RowOf(w, p)]
  {
    var P := Picks(cols, w, R, cage, x, j);
    assert bs[j] == Block(cols, w, R, cage, x, j, P);
    BlockHas(cols, w, R, cage, x, j, P, p);
  }

  /** The blocks from k on hold nodes only. */
  lemma RestNodes(cols: seq<int>, w: int, R: seq<seq<int>>, cage: seq<bool>, x: int, bs: seq<seq<int>>, k: nat)
    requires Plan(cols, w, R, cage, x) && Blocks(cols, w, R, cage, x, bs)
    ensures forall i :: 0 <= i < |Rest(bs, k)| ==> IsNode(cols, w, Rest(bs, k)[i])
  {
    forall i | 0 <= i < |Rest(bs, k)|
      ensures IsNode(cols, w, Rest(bs, k)[i])
    {
      var j := RestIn(bs, k, i);
      BlockAt(cols, w, R, cage, x, bs, j, Rest(bs, k)[i]);
    }
  }

  /** The rows the walks from k on pick are not cage-locked and are whole. */
  lemma RestReady(cols: seq<int>, w: int, R: seq<seq<int>>, cage: seq<bool>, con: seq<bool>, x: int, bs: seq<seq<int>>, k: nat, i: int)
    requires Plan(cols, w, R, cage, x) && Clear(cols, w, R, con, x) && Blocks(cols, w, R, cage, x, bs) && 0 <= i < |Rest(bs, k)|
    ensures var y := RowOf(w, Rest(bs, k)[i]);
      0 <= y < |cage| && !cage[y] && Whole(cols, w, R, y)
  {
    var p := Rest(bs, k)[i];
    var j := RestIn(bs, k, i);
    BlockAt(cols, w, R, cage, x, bs, j, p);
    MetColumn(cols, w, R, x, j, p);
    MetGrows(cols, w, R, x, j + 1, Walks(x), p);
  }

  /**
   * A node met by walk k, or before it, whose row is that of the i-th node
   * the walks from k on pick, lies in the row of a node walk k picks.
   */
  lemma RestMet(cols: seq<int>, w: int, R: seq<seq<int>>, cage: seq<bool>, con: seq<bool>, x: int, bs: seq<seq<int>>, k: int, i: int, v: int)
    requires Walking(cols, w, R, cage, con, x, bs, k)
    requires 0 <= i < |Rest(bs, k)| && v in Met(cols, w, R, x, k + 1) && RowOf(w, v) == RowOf(w, Rest(bs, k)[i])
    ensures i < |bs[k]| && Rest(bs, k)[i] == bs[k][i]
  {
    var A := Rest(bs, 0);
    var j := RestPicked(cols, w, R, cage, con, x, bs, k, i, v);
    RestAt(bs, k, i);
    assert RowsDistinct(w, A) by {
      PicksDistinct(cols, w, R, cage, x, Walks(x));
      PicksAll(cols, w, R, cage, x, bs);
    }
    DoneRest(bs, k + 1);
    DistinctAt(w, A, j, |Done(bs, k)| + i);
  }

  /** A node met by walk k, or before it, whose row some later pick has, shares its row with one of the first k + 1 walks' picks. */
  lemma RestPicked(cols: seq<int>, w: int, R: seq<seq<int>>, cage: seq<bool>, con: seq<bool>, x: int, bs: seq<seq<int>>, k: int, i: int, v: int) returns (j: int)
    requires Plan(cols, w, R, cage, x) && Clear(cols, w, R, con, x) && Blocks(cols, w, R, cage, x, bs) && 0 <= k < 4
    requires 0 <= i < |Rest(bs, k)| && v in Met(cols, w, R, x, k + 1) && RowOf(w, v) == RowOf(w, Rest(bs, k)[i])
    ensures 0 <= j < |Done(bs, k + 1)| && j < |Rest(bs, 0)| && RowOf(w, Rest(bs, 0)[j]) == RowOf(w, v)
  {
    RestCovered(cols, w, R, cage, con, x, bs, k, i, v);
    PicksDone(cols, w, R, cage, x, bs, k + 1);
    DoneRest(bs, k + 1);
    j := PrefixRow(w, Done(bs, k + 1), Rest(bs, k + 1), RowOf(w, v));
  }

  /** The row of such a node is a row of the first k + 1 walks' picks. */
  lemma RestCovered(cols: seq<int>, w: int, R: seq<seq<int>>, cage: seq<bool>, con: seq<bool>, x: int, bs: seq<seq<int>>, k: int, i: int, v: int)
    requires Plan(cols, w, R, cage, x) && Clear(cols, w, R, con, x) && Blocks(cols, w, R, cage, x, bs) && 0 <= k < 4
    requires 0 <= i < |Rest(bs, k)| && v in Met(cols, w, R, x, k + 1) && RowOf(w, v) == RowOf(w, Rest(bs, k)[i])
    ensures RowOf(w, v) in RowsOf(w, Picks(cols, w, R, cage, x, k + 1))
  {
    RestReady(cols, w, R, cage, con, x, bs, k, i);
    PicksCovered(cols, w, R, cage, x, k + 1, v);
  }

  /** A row of the prefix D is the row of a node of D + E at an index inside D. */
  lemma PrefixRow(w: int, D: seq<int>, E: seq<int>, y: int) returns (j: int)
    requires y in RowsOf(w, D)
    ensures 0 <= j < |D| && RowOf(w, (D + E)[j]) == y
  {
    j :| 0 <= j < |D| && RowsOf(w, D)[j] == y;
    assert (D + E)[j] == D[j];
  }

  /** Two positions of a sequence of distinct rows holding the same row are one. */
  lemma DistinctAt(w: int, A: seq<int>, j: int, m: int)
    requires RowsDistinct(w, A) && 0 <= j < |A| && 0 <= m < |A| && RowOf(w, A[j]) == RowOf(w, A[m])
    ensures j == m
  {
  }

  /** A node of a whole row is on its column's list. */
  lemma WholeOnRing(cols: seq<int>, w: int, R: seq<seq<int>>, v: int)
    requires IsNode(cols, w, v) && Whole(cols, w, R, RowOf(w, v))
    ensures OnRing(cols, w, R, v)
  {
    NodeOfRow(w, RowOf(w, v), v);
  }

  /** A node on the lists in walk k's column is met by the first k + 1 walks. */
  lemma MetColumn(cols: seq<int>, w: int, R: seq<seq<int>>, x: int, k: int, v: int)
    requires Columns(cols, w) && |R| == w && 0 <= x < |cols| / 4 && 0 <= k < 4
    requires OnRing(cols, w, R, v) && cols[v - w] == RowColumn(cols, x, k)
    ensures v in Met(cols, w, R, x, k + 1)
  {
  }

  /** The i-th node the walks from k on pick has no other node of its row in walk k's column. */
  lemma RestColumnsAt(cols: seq<int>, w: int, R: seq<seq<int>>, cage: seq<bool>, con: seq<bool>, x: int, bs: seq<seq<int>>, k: int, i: int, v: int)
    requires Plan(cols, w, R, cage, x) && Clear(cols, w, R, con, x) && Blocks(cols, w, R, cage, x, bs) && 0 <= k < 4 && 0 <= i < |Rest(bs, k)|
    requires IsNode(cols, w, v) && Rest(bs, k)[i] != v && RowOf(w, Rest(bs, k)[i]) == RowOf(w, v)
    ensures cols[v - w] != RowColumn(cols, x, k)
  {
    var h := RowColumn(cols, x, k);
    if cols[v - w] == h {
      assert v in Met(cols, w, R, x, k + 1) by {
        RestReady(cols, w, R, cage, con, x, bs, k, i);
        WholeOnRing(cols, w, R, v);
        MetColumn(cols, w, R, x, k, v);
      }
      assert i < |bs[k]| by {
        RestMet(cols, w, R, cage, con, x, bs, k, i, v);
      }
      var u := Rest(bs, k)[i];
      assert IsNode(cols, w, u) && cols[u - w] == h by {
        assert u == bs[k][i] && u in bs[k];
        BlockAt(cols, w, R, cage, x, bs, k, u);
      }
      OneNodePerColumn(cols, w, u, v, h);
    }
  }

  /** No node the walks from k on still hold detached lies in walk k's column. */
  lemma RestColumns(cols: seq<int>, w: int, R: seq<seq<int>>, cage: seq<bool>, con: seq<bool>, x: int, bs: seq<seq<int>>, k: int, v: int)
    requires Plan(cols, w, R, cage, x) && Clear(cols, w, R, con, x) && Blocks(cols, w, R, cage, x, bs) && 0 <= k < 4
    requires forall i :: 0 <= i < |Rest(bs, k)| ==> IsNode(cols, w, Rest(bs, k)[i])
    requires v in Spans(cols, w, Rest(bs, k))
    ensures IsNode(cols, w, v) && cols[v - w] != RowColumn(cols, x, k)
  {
    var A := Rest(bs, k);
    SpansRows(cols, w, A, v);
    var i :| 0 <= i < |A| && RowOf(w, A[i]) == RowOf(w, v) && A[i] != v;
    RestColumnsAt(cols, w, R, cage, con, x, bs, k, i, v);
  }

  /**
   * A node walk k picks has a row the removal picked, and no list met by
   * the walks before k holds a node of that row.
   */
  lemma BlockLocked(cols: seq<int>, w: int, R: seq<seq<int>>, cage: seq<bool>, x: int, bs: seq<seq<int>>, k: int, v: int)
    requires Plan(cols, w, R, cage, x) && Blocks(cols, w, R, cage, x, bs) && 0 <= k < 4 && v in bs[k]
    ensures RowOf(w, v) in RowsOf(w, Rest(bs, 0)) && RowOf(w, v) !in RowsOf(w, Met(cols, w, R, x, k))
  {
    var y := RowOf(w, v);
    var A := Rest(bs, 0);
    var i :| 0 <= i < |bs[k]| && bs[k][i] == v;
    assert Rest(bs, k)[i] == v;
    RestAt(bs, k, i);
    var m := |Done(bs, k)| + i;
    assert RowsOf(w, A)[m] == y;
    var M := Met(cols, w, R, x, k);
    if y in RowsOf(w, M) {
      var n :| 0 <= n < |M| && RowsOf(w, M)[n] == y;
      BlockAt(cols, w, R, cage, x, bs, k, v);
      PicksCovered(cols, w, R, cage, x, k, M[n]);
      PicksDone(cols, w, R, cage, x, bs, k);
      DoneRest(bs, k);
      var j := PrefixRow(w, Done(bs, k), Rest(bs, k), y);
      PicksDistinct(cols, w, R, cage, x, Walks(x));
      PicksAll(cols, w, R, cage, x, bs);
      DistinctAt(w, A, j, m);
    }
  }

  /**
   * A node on walk k's list whose row the removal picked, and which no list
   * met before walk k holds a node of, is one walk k picked.
   */
  lemma LockedBlock(cols: seq<int>, w: int, R: seq<seq<int>>, cage: seq<bool>, con: seq<bool>, x: int, bs: seq<seq<int>>, k: int, v: int)
    requires Plan(cols, w, R, cage, x) && Clear(cols, w, R, con, x) && Blocks(cols, w, R, cage, x, bs) && 0 <= k < 4
    requires v in R[RowColumn(cols, x, k)] && RowOf(w, v) in RowsOf(w, Rest(bs, 0)) && RowOf(w, v) !in RowsOf(w, Met(cols, w, R, x, k))
    ensures v in bs[k]
  {
    var A := Rest(bs, 0);
    var m :| 0 <= m < |A| && RowsOf(w, A)[m] == RowOf(w, v);
    if m < |Done(bs, k)| {
      EarlyMet(cols, w, R, cage, x, bs, k, m);
    } else {
      LateBlock(cols, w, R, cage, con, x, bs, k, m, v);
    }
  }

  /** A node among the first k walks' picks has its row on the lists those walks meet. */
  lemma EarlyMet(cols: seq<int>, w: int, R: seq<seq<int>>, cage: seq<bool>, x: int, bs: seq<seq<int>>, k: int, m: int)
    requires Plan(cols, w, R, cage, x) && Blocks(cols, w, R, cage, x, bs) && 0 <= k <= 4 && 0 <= m < |Done(bs, k)|
    ensures m < |Rest(bs, 0)| && RowOf(w, Rest(bs, 0)[m]) in RowsOf(w, Met(cols, w, R, x, k))
  {
    DoneRest(bs, k);
    PicksDone(cols, w, R, cage, x, bs, k);
    IndexPrefix(Done(bs, k), Rest(bs, k), Rest(bs, 0), m);
    PicksOnMet(cols, w, R, cage, x, k, m);
    var M := Met(cols, w, R, x, k);
    var n :| 0 <= n < |M| && M[n] == Rest(bs, 0)[m];
    assert RowsOf(w, M)[n] == RowOf(w, M[n]);
  }

  /**
   * The hypotheses shared by the lemmas about the reset's walk k: the plan
   * of the removal, its rows clear, bs its blocks.
   */
  ghost predicate Walking(cols: seq<int>, w: int, R: seq<seq<int>>, cage: seq<bool>, con: seq<bool>, x: int, bs: seq<seq<int>>, k: int)
  {
    Plan(cols, w, R, cage, x) && Clear(cols, w, R, con, x) && Blocks(cols, w, R, cage, x, bs) && 0 <= k < 4
  }

  /**
   * Node v lies on walk k's list and shares its row with the m-th node of
   * the removal's picks, one picked by walk k or a later walk.
   */
  ghost predicate LateShares(cols: seq<int>, w: int, R: seq<seq<int>>, cage: seq<bool>, con: seq<bool>, x: int, bs: seq<seq<int>>,
                             k: int, m: int, v: int)
  {
    Walking(cols, w, R, cage, con, x, bs, k) &&
    v in R[RowColumn(cols, x, k)] && |Done(bs, k)| <= m < |Rest(bs, 0)| && RowOf(w, Rest(bs, 0)[m]) == RowOf(w, v)
  }

  /** A node on walk k's list sharing its row with a pick of walk k or a later one is a pick of walk k. */
  lemma LateBlock(cols: seq<int>, w: int, R: seq<seq<int>>, cage: seq<bool>, con: seq<bool>, x: int, bs: seq<seq<int>>, k: int, m: int, v: int)
    requires LateShares(cols, w, R, cage, con, x, bs, k, m, v)
    ensures 0 <= k < |bs| && v in bs[k]
  {
    var i := RestIndex(bs, k, m);
    RestTwin(cols, w, R, cage, con, x, bs, k, i, v);
  }

  /** The m-th node of all the blocks, when it is not among the first k blocks', is the i-th from block k on. */
  lemma RestIndex(bs: seq<seq<int>>, k: int, m: int) returns (i: int)
    requires 0 <= k <= |bs| && |Done(bs, k)| <= m < |Rest(bs, 0)|
    ensures 0 <= i < |Rest(bs, k)| && Rest(bs, k)[i] == Rest(bs, 0)[m]
  {
    i := m - |Done(bs, k)|;
    DoneRest(bs, k);
    IndexAppend(Done(bs, k), Rest(bs, k), Rest(bs, 0), i);
  }

  /**
   * Node v lies on walk k's list and shares its row with the i-th node
   * picked from walk k on.
   */
  ghost predicate RestShares(cols: seq<int>, w: int, R: seq<seq<int>>, cage: seq<bool>, con: seq<bool>, x: int, bs: seq<seq<int>>,
                             k: int, i: int, v: int)
  {
    Walking(cols, w, R, cage, con, x, bs, k) &&
    0 <= i < |Rest(bs, k)| && v in R[RowColumn(cols, x, k)] && RowOf(w, Rest(bs, k)[i]) == RowOf(w, v)
  }

  /** A node on walk k's list sharing its row with the i-th node picked from walk k on is that pick, one of walk k. */
  lemma RestTwin(cols: seq<int>, w: int, R: seq<seq<int>>, cage: seq<bool>, con: seq<bool>, x: int, bs: seq<seq<int>>, k: int, i: int, v: int)
    requires RestShares(cols, w, R, cage, con, x, bs, k, i, v)
    ensures 0 <= k < |bs| && v in bs[k]
  {
    MetLast(cols, w, R, cage, con, x, bs, k, v);
    RestMet(cols, w, R, cage, con, x, bs, k, i, v);
    BlockTwin(cols, w, R, cage, con, x, bs, k, Rest(bs, k)[i], v);
  }

  /** A node on walk k's list is met by the first k + 1 walks. */
  lemma MetLast(cols: seq<int>, w: int, R: seq<seq<int>>, cage: seq<bool>, con: seq<bool>, x: int, bs: seq<seq<int>>, k: int, v: int)
    requires Walking(cols, w, R, cage, con, x, bs, k) && v in R[RowColumn(cols, x, k)]
    ensures v in Met(cols, w, R, x, k + 1)
  {
  }

  /** A pick of walk k and a node of the same row on walk k's list are one node. */
  lemma BlockTwin(cols: seq<int>, w: int, R: seq<seq<int>>, cage: seq<bool>, con: seq<bool>, x: int, bs: seq<seq<int>>, k: int, u: int, v: int)
    requires Walking(cols, w, R, cage, con, x, bs, k)
    requires u in bs[k] && v in R[RowColumn(cols, x, k)] && RowOf(w, u) == RowOf(w, v)
    ensures u == v
  {
    var h := RowColumn(cols, x, k);
    BlockAt(cols, w, R, cage, x, bs, k, u);
    ListedColumn(cols, w, R, h, v);
    OneNodePerColumn(cols, w, u, v, h);
  }

  /**
   * Once the reset's first k walks are done, a node on walk k's list has
   * its row constraint-locked exactly when walk k of the removal picked it.
   */
  lemma LockedIff(cols: seq<int>, w: int, R: seq<seq<int>>, cage: seq<bool>, con: seq<bool>, x: int, bs: seq<seq<int>>, k: int,
                  c1: seq<bool>, ct: seq<bool>, v: int)
    requires Plan(cols, w, R, cage, x) && Clear(cols, w, R, con, x) && Blocks(cols, w, R, cage, x, bs) && 0 <= k < 4
    requires |c1| == |con| && |ct| == |con|
    requires forall y :: 0 <= y < |con| ==> c1[y] == (con[y] || y in RowsOf(w, Rest(bs, 0)))
    requires forall y :: 0 <= y < |con| ==> ct[y] == (c1[y] && y !in RowsOf(w, Met(cols, w, R, x, k)))
    requires v in R[RowColumn(cols, x, k)]
    ensures IsNode(cols, w, v) && 0 <= RowOf(w, v) < |ct| && (ct[RowOf(w, v)] <==> v in bs[k])
  {
    var h := RowColumn(cols, x, k);
    ListedColumn(cols, w, R, h, v);
    RowInRange(w, v, |cols| / 4);
    MetColumn(cols, w, R, x, k, v) by {
      ListedOnRing(cols, w, R, h, v);
    }
    MetGrows(cols, w, R, x, k + 1, Walks(x), v);
    if v in bs[k] {
      BlockLocked(cols, w, R, cage, x, bs, k, v);
    } else if ct[RowOf(w, v)] {
      LockedBlock(cols, w, R, cage, con, x, bs, k, v);
    }
  }

  /**
   * Once the reset's first k walks are done, walk k meets its whole list and
   * picks the constraint-locked rows there: exactly what walk k of the
   * removal picked.
   */
  lemma UncoverPicks(cols: seq<int>, w: int, R: seq<seq<int>>, cage: seq<bool>, con: seq<bool>, x: int, bs: seq<seq<int>>, k: int,
                     c1: seq<bool>, ct: seq<bool>)
    requires Plan(cols, w, R, cage, x) && Clear(cols, w, R, con, x) && Blocks(cols, w, R, cage, x, bs) && 0 <= k < 4
    requires |c1| == |con| && |ct| == |con| && |con| == |cage|
    requires forall y :: 0 <= y < |con| ==> c1[y] == (con[y] || y in RowsOf(w, Rest(bs, 0)))
    requires forall y :: 0 <= y < |con| ==> ct[y] == (c1[y] && y !in RowsOf(w, Met(cols, w, R, x, k)))
    requires forall i :: 0 <= i < |R[RowColumn(cols, x, k)]| ==> IsNode(cols, w, R[RowColumn(cols, x, k)][i])
    ensures Picked(cols, w, R[RowColumn(cols, x, k)], ct, true) == bs[k]
  {
    var h := RowColumn(cols, x, k);
    var P := Picks(cols, w, R, cage, x, k);
    var D := Spans(cols, w, P);
    var xs := R[h];
    assert bs[k] == Block(cols, w, R, cage, x, k, P);
    forall i | 0 <= i < |xs|
      ensures 0 <= RowOf(w, xs[i]) < |ct| && (ct[RowOf(w, xs[i])] <==> xs[i] !in D && !cage[RowOf(w, xs[i])])
    {
      assert xs[i] in xs;
      LockedIff(cols, w, R, cage, con, x, bs, k, c1, ct, xs[i]);
      BlockHas(cols, w, R, cage, x, k, P, xs[i]);
    }
    PickedWithout(cols, w, xs, D, ct, true, cage, false);
  }

  /** The nodes on column h's list are constraint nodes. */
  lemma ListedNodes(cols: seq<int>, w: int, R: seq<seq<int>>, h: int)
    requires 0 < w && Columned(cols, w, R) && 0 <= h < w
    ensures forall i :: 0 <= i < |R[h]| ==> IsNode(cols, w, R[h][i])
  {
    assert InColumn(cols, w, h, R[h]);
  }

  /** The spans of the picks of walk k and the later walks are nodes outside walk k's column. */
  lemma RestSpansApart(cols: seq<int>, w: int, R: seq<seq<int>>, cage: seq<bool>, con: seq<bool>, x: int, bs: seq<seq<int>>, k: int,
                       rest: seq<int>)
    requires Walking(cols, w, R, cage, con, x, bs, k)
    requires forall i :: 0 <= i < |Rest(bs, k)| ==> IsNode(cols, w, Rest(bs, k)[i])
    requires rest == Spans(cols, w, Rest(bs, k))
    ensures forall i :: 0 <= i < |rest| ==> 0 <= rest[i] < w + |cols| && ColOf(cols, w, rest[i]) != RowColumn(cols, x, k)
  {
    forall i | 0 <= i < |rest|
      ensures 0 <= rest[i] < w + |cols| && ColOf(cols, w, rest[i]) != RowColumn(cols, x, k)
    {
      assert rest[i] in rest;
      RestColumns(cols, w, R, cage, con, x, bs, k, rest[i]);
    }
  }

  /**
   * While only nodes outside column h wait to be reattached, column h has
   * all its old pointers, so walking it meets its whole list.
   */
  lemma UncoverWalk(L0: Links, T: Links, cols: seq<int>, w: int, R: seq<seq<int>>, h: int, rest: seq<int>)
    requires Ordered(L0, cols, w) && Ordered(T, cols, w) && RingsWithout(L0, cols, w, R, []) && 0 <= h < w
    requires forall i :: 0 <= i < |rest| ==> 0 <= rest[i] < w + |cols| && ColOf(cols, w, rest[i]) != h
    requires Lifting(L0, T, cols, w, Attached(cols, w, R), rest)
    ensures 0 <= T.below[h] < w + |cols| && WalkFrom(T, cols, w, T.below[h]) == R[h]
  {
    LiftingColumn(L0, T, cols, w, Attached(cols, w, R), rest, h);
    assert Listed(R, h);
    WithoutNone(R[h]);
    RingWalk(L0, cols, w, h, R[h]);
    assert Hooked(L0, cols, w, h);
    WalkSame(L0, T, cols, w, L0.below[h]);
  }

  /** The spans of the removal's picks are distinct nodes on the lists. */
  lemma PicksFresh(cols: seq<int>, w: int, R: seq<seq<int>>, cage: seq<bool>, con: seq<bool>, x: int)
    requires Plan(cols, w, R, cage, x) && Clear(cols, w, R, con, x)
    ensures Fresh(cols, w, Attached(cols, w, R), Spans(cols, w, Picks(cols, w, R, cage, x, Walks(x))))
  {
    var P := Picks(cols, w, R, cage, x, Walks(x));
    var D := Spans(cols, w, P);
    var A := Attached(cols, w, R);
    PicksReady(cols, w, R, cage, con, x, Walks(x));
    SpansDistinct(cols, w, P);
    forall i | 0 <= i < |D|
      ensures IsNode(cols, w, D[i]) && D[i] in A
    {
      assert D[i] in D;
      SpansOnRing(cols, w, R, P, D[i]);
    }
  }

  /**
   * What removeConstraintsByRow(x) leaves, from the arena L0 with whole
   * rings and constraint locks con: the arena L1 with the spans of its
   * picks dropped in order, and constraint locks c1 with their rows
   * locked.
   */
  ghost predicate Started(L0: Links, L1: Links, c1: seq<bool>, cols: seq<int>, w: int, R: seq<seq<int>>,
                          cage: seq<bool>, con: seq<bool>, x: int)
  {
    Ordered(L0, cols, w) && RingsWithout(L0, cols, w, R, []) && Plan(cols, w, R, cage, x) && Clear(cols, w, R, con, x) &&
    |con| == |cage| && |c1| == |con| && Ordered(L1, cols, w) &&
    L1 == DropAll(L0, cols, w, Spans(cols, w, Picks(cols, w, R, cage, x, Walks(x)))) &&
    forall y :: 0 <= y < |con| ==> c1[y] == (con[y] || y in RowsOf(w, Picks(cols, w, R, cage, x, Walks(x))))
  }

  /**
   * The removal's drops, from whole rings, leave the spans of its picks
   * detached and waiting, in the order they left, to be reattached.
   */
  lemma StartLifting(L0: Links, L1: Links, c1: seq<bool>, cols: seq<int>, w: int, R: seq<seq<int>>,
                     cage: seq<bool>, con: seq<bool>, x: int)
    requires Started(L0, L1, c1, cols, w, R, cage, con, x)
    ensures Lifting(L0, L1, cols, w, Attached(cols, w, R), Spans(cols, w, Picks(cols, w, R, cage, x, Walks(x))))
  {
    RingsLinked(L0, cols, w, R);
    PicksFresh(cols, w, R, cage, con, x);
    DropAllLifting(L0, cols, w, Attached(cols, w, R), Spans(cols, w, Picks(cols, w, R, cage, x, Walks(x))));
  }

  /**
   * Where the reset stands after its first k walks, over the arena L0 and
   * the constraint locks con from before the removal: T is the arena now,
   * c1 the constraint locks the removal left and ct the locks now.  The
   * spans the walks from k on picked wait, in order, to be reattached, and
   * the rows met on the first k lists are no longer constraint-locked.
   */
  ghost predicate Phase(L0: Links, T: Links, c1: seq<bool>, ct: seq<bool>, cols: seq<int>, w: int, R: seq<seq<int>>,
                        cage: seq<bool>, con: seq<bool>, x: int, bs: seq<seq<int>>, k: int)
  {
    Ordered(L0, cols, w) && RingsWithout(L0, cols, w, R, []) && Plan(cols, w, R, cage, x) && Clear(cols, w, R, con, x) &&
    Blocks(cols, w, R, cage, x, bs) && 0 <= k <= 4 && Ordered(T, cols, w) &&
    |c1| == |con| && |ct| == |con| && |con| == |cage| &&
    (forall y :: 0 <= y < |con| ==> c1[y] == (con[y] || y in RowsOf(w, Rest(bs, 0)))) &&
    (forall y :: 0 <= y < |con| ==> ct[y] == (c1[y] && y !in RowsOf(w, Met(cols, w, R, x, k)))) &&
    (forall i :: 0 <= i < |Rest(bs, k)| ==> IsNode(cols, w, Rest(bs, k)[i])) &&
    Lifting(L0, T, cols, w, Attached(cols, w, R), Spans(cols, w, Rest(bs, k)))
  }

  /** Before the reset's first walk, the spans of every block wait and no lock has been cleared. */
  lemma PhaseStart(L0: Links, L1: Links, c1: seq<bool>, cols: seq<int>, w: int, R: seq<seq<int>>,
                   cage: seq<bool>, con: seq<bool>, x: int, bs: seq<seq<int>>)
    requires Started(L0, L1, c1, cols, w, R, cage, con, x) && Blocks(cols, w, R, cage, x, bs)
    ensures Phase(L0, L1, c1, c1, cols, w, R, cage, con, x, bs, 0)
  {
    StartLifting(L0, L1, c1, cols, w, R, cage, con, x);
    PicksAll(cols, w, R, cage, x, bs);
    RestNodes(cols, w, R, cage, x, bs, 0);
    MetNone(cols, w, R, cage, x);
  }

  /** Before the first walk, no row has been met. */
  lemma MetNone(cols: seq<int>, w: int, R: seq<seq<int>>, cage: seq<bool>, x: int)
    requires Plan(cols, w, R, cage, x)
    ensures forall y :: y !in RowsOf(w, Met(cols, w, R, x, 0))
  {
    assert Met(cols, w, R, x, 0) == [];
  }

  /** Walk k of the reset meets its column's whole list. */
  lemma PhaseWalk(L0: Links, T: Links, c1: seq<bool>, ct: seq<bool>, cols: seq<int>, w: int, R: seq<seq<int>>,
                  cage: seq<bool>, con: seq<bool>, x: int, bs: seq<seq<int>>, k: int)
    requires Phase(L0, T, c1, ct, cols, w, R, cage, con, x, bs, k) && k < 4
    ensures var h := RowColumn(cols, x, k);
      0 <= h < w && Hooked(T, cols, w, h) && WalkFrom(T, cols, w, T.below[h]) == R[h] &&
      forall i :: 0 <= i < |R[h]| ==> IsNode(cols, w, R[h][i])
  {
    var h := RowColumn(cols, x, k);
    var rest := Spans(cols, w, Rest(bs, k));
    RestSpansApart(cols, w, R, cage, con, x, bs, k, rest);
    UncoverWalk(L0, T, cols, w, R, h, rest);
    ListedNodes(cols, w, R, h);
    assert Hooked(T, cols, w, h);
  }

  /** Reattaching the spans of block k, first of those waiting, leaves the later blocks' spans waiting. */
  lemma RestLift(L0: Links, T: Links, cols: seq<int>, w: int, A: set<int>, bs: seq<seq<int>>, k: nat, k1: nat)
    requires Ordered(L0, cols, w) && Ordered(T, cols, w) && |cols| % 4 == 0 && k < |bs| && k1 == k + 1
    requires forall i :: 0 <= i < |Rest(bs, k)| ==> IsNode(cols, w, Rest(bs, k)[i])
    requires Lifting(L0, T, cols, w, A, Spans(cols, w, Rest(bs, k)))
    ensures forall i :: 0 <= i < |bs[k]| ==> IsNode(cols, w, bs[k][i])
    ensures forall i :: 0 <= i < |Rest(bs, k1)| ==> IsNode(cols, w, Rest(bs, k1)[i])
    ensures Lifting(L0, LiftAll(T, cols, w, Spans(cols, w, bs[k])), cols, w, A, Spans(cols, w, Rest(bs, k1)))
  {
    assert Rest(bs, k) == bs[k] + Rest(bs, k1);
    IndexSplit(cols, w, bs[k], Rest(bs, k1), Rest(bs, k));
    SpansAppend(cols, w, bs[k], Rest(bs, k1));
    var rest := Spans(cols, w, Rest(bs, k));
    var n := |Spans(cols, w, bs[k])|;
    LiftAllPrefix(L0, T, cols, w, A, rest, n);
    assert rest[..n] == Spans(cols, w, bs[k]) && rest[n..] == Spans(cols, w, Rest(bs, k1));
  }

  /** Clearing the locks of the rows on list k clears those met on the first k + 1 lists. */
  lemma MetLocks(c1: seq<bool>, ct: seq<bool>, ct': seq<bool>, cols: seq<int>, w: int, R: seq<seq<int>>, x: int, k: int, k1: int)
    requires Columns(cols, w) && |R| == w && 0 <= x < |cols| / 4 && 0 <= k < 4 && k1 == k + 1
    requires |ct| == |c1| && |ct'| == |c1|
    requires forall y :: 0 <= y < |c1| ==> ct[y] == (c1[y] && y !in RowsOf(w, Met(cols, w, R, x, k)))
    requires forall y :: 0 <= y < |c1| ==> ct'[y] == (ct[y] && y !in RowsOf(w, R[RowColumn(cols, x, k)]))
    ensures forall y :: 0 <= y < |c1| ==> ct'[y] == (c1[y] && y !in RowsOf(w, Met(cols, w, R, x, k1)))
  {
    assert Met(cols, w, R, x, k1) == Met(cols, w, R, x, k) + R[RowColumn(cols, x, k)];
    RowsOfAppend(w, Met(cols, w, R, x, k), R[RowColumn(cols, x, k)]);
  }

  /**
   * Walk k of the reset, meeting list k whole, reattaches exactly block k's
   * spans and unlocks the rows of list k.
   */
  lemma PhaseNext(L0: Links, T: Links, T': Links, c1: seq<bool>, ct: seq<bool>, ct': seq<bool>, cols: seq<int>, w: int,
                  R: seq<seq<int>>, cage: seq<bool>, con: seq<bool>, x: int, bs: seq<seq<int>>, k: int, k1: int)
    requires Phase(L0, T, c1, ct, cols, w, R, cage, con, x, bs, k) && k < 4 && k1 == k + 1
    requires forall i :: 0 <= i < |R[RowColumn(cols, x, k)]| ==> IsNode(cols, w, R[RowColumn(cols, x, k)][i])
    requires T' == LiftAll(T, cols, w, Spans(cols, w, Picked(cols, w, R[RowColumn(cols, x, k)], ct, true)))
    requires |ct'| == |ct| && forall y :: 0 <= y < |ct| ==> ct'[y] == (ct[y] && y !in RowsOf(w, R[RowColumn(cols, x, k)]))
    ensures Phase(L0, T', c1, ct', cols, w, R, cage, con, x, bs, k1)
  {
    UncoverPicks(cols, w, R, cage, con, x, bs, k, c1, ct);
    RestLift(L0, T, cols, w, Attached(cols, w, R), bs, k, k1);
    MetLocks(c1, ct, ct', cols, w, R, x, k, k1);
  }

  /** resetConstraintsByCol on x's family-k column takes the reset from k walks done to k1 = k + 1. */
  lemma UncoverRowWalk(t: KState, L0: Links, c1: seq<bool>, cols: seq<int>, w: int, R: seq<seq<int>>,
                       cage: seq<bool>, con: seq<bool>, x: int, bs: seq<seq<int>>, k: int, k1: int)
    requires Fit(t, cols, w) && Phase(L0, t.links, c1, t.conLock, cols, w, R, cage, con, x, bs, k) && k < 4 && k1 == k + 1
    ensures var t' := Uncover(t, cols, w, RowColumn(cols, x, k));
      Phase(L0, t'.links, c1, t'.conLock, cols, w, R, cage, con, x, bs, k1)
  {
    var h := RowColumn(cols, x, k);
    PhaseWalk(L0, t.links, c1, t.conLock, cols, w, R, cage, con, x, bs, k);
    UncoverLinks(t, cols, w, t.links.below[h]);
    var t' := Uncover(t, cols, w, h);
    PhaseNext(L0, t.links, t'.links, c1, t.conLock, t'.conLock, cols, w, R, cage, con, x, bs, k, k1);
  }

  /** Both parts of a concatenation of nodes hold nodes. */
  lemma IndexSplit(cols: seq<int>, w: int, a: seq<int>, b: seq<int>, c: seq<int>)
    requires a + b == c && forall i :: 0 <= i < |c| ==> IsNode(cols, w, c[i])
    ensures forall i :: 0 <= i < |a| ==> IsNode(cols, w, a[i])
    ensures forall i :: 0 <= i < |b| ==> IsNode(cols, w, b[i])
  {
    forall i | 0 <= i < |a|
      ensures IsNode(cols, w, a[i])
    {
      assert a[i] == c[i];
    }
    forall i | 0 <= i < |b|
      ensures IsNode(cols, w, b[i])
    {
      assert b[i] == c[|a| + i];
    }
  }

  /** The first k walks of resetConstraintsByRow(x), after the removal. */
  lemma {:induction false} UncoverRowPlan(r1: KState, L0: Links, cols: seq<int>, w: int, R: seq<seq<int>>,
                                          cage: seq<bool>, con: seq<bool>, x: int, bs: seq<seq<int>>, k: int)
    requires Fit(r1, cols, w) && Phase(L0, r1.links, r1.conLock, r1.conLock, cols, w, R, cage, con, x, bs, 0) && 0 <= k <= 4
    ensures var t := UncoverRow(r1, cols, w, x, k);
      Phase(L0, t.links, r1.conLock, t.conLock, cols, w, R, cage, con, x, bs, k)
    decreases k
  {
    if k > 0 {
      UncoverRowPlan(r1, L0, cols, w, R, cage, con, x, bs, k - 1);
      var t := UncoverRow(r1, cols, w, x, k - 1);
      UncoverRowWalk(t, L0, r1.conLock, cols, w, R, cage, con, x, bs, k - 1, k);
      assert UncoverRow(r1, cols, w, x, k) == Uncover(t, cols, w, RowColumn(cols, x, k - 1));
    }
  }

  /** The rows the removal picks lie on the lists it meets, which are not constraint-locked: the reset clears exactly the locks the removal set. */
  lemma ConLockBack(cols: seq<int>, w: int, R: seq<seq<int>>, cage: seq<bool>, con: seq<bool>, x: int, y: int)
    requires Plan(cols, w, R, cage, x) && Clear(cols, w, R, con, x) && 0 <= y < |con|
    ensures ((con[y] || y in RowsOf(w, Picks(cols, w, R, cage, x, Walks(x)))) && y !in RowsOf(w, Met(cols, w, R, x, Walks(x)))) == con[y]
  {
    var P := Picks(cols, w, R, cage, x, Walks(x));
    var M := Met(cols, w, R, x, Walks(x));
    if y in RowsOf(w, M) {
      var n :| 0 <= n < |M| && RowsOf(w, M)[n] == y;
      assert M[n] in M;
    } else if y in RowsOf(w, P) {
      var m :| 0 <= m < |P| && RowsOf(w, P)[m] == y;
      PicksOnMet(cols, w, R, cage, x, Walks(x), m);
    }
  }

  /** After the reset's four walks, nothing waits: the arena and the constraint locks are as before the removal. */
  lemma PhaseEnd(L0: Links, T: Links, c1: seq<bool>, ct: seq<bool>, cols: seq<int>, w: int, R: seq<seq<int>>,
                 cage: seq<bool>, con: seq<bool>, x: int, bs: seq<seq<int>>)
    requires Phase(L0, T, c1, ct, cols, w, R, cage, con, x, bs, 4)
    ensures T == L0 && ct == con
  {
    assert Rest(bs, 4) == [];
    LiftingDone(L0, T, cols, w, Attached(cols, w, R));
    PicksAll(cols, w, R, cage, x, bs);
    forall y | 0 <= y < |con|
      ensures ct[y] == con[y]
    {
      ConLockBack(cols, w, R, cage, con, x, y);
    }
  }

  /** resetConstraintsByRow(x), from the state removeConstraintsByRow(x) left, gives back its arena and constraint locks. */
  lemma ResetBack(r1: KState, L0: Links, cols: seq<int>, w: int, R: seq<seq<int>>, cage: seq<bool>, con: seq<bool>, x: int)
    requires Fit(r1, cols, w) && Started(L0, r1.links, r1.conLock, cols, w, R, cage, con, x)
    ensures UncoverRow(r1, cols, w, x, 4).links == L0 && UncoverRow(r1, cols, w, x, 4).conLock == con
  {
    var bs := Walked(cols, w, R, cage, x);
    PhaseStart(L0, r1.links, r1.conLock, cols, w, R, cage, con, x, bs);
    UncoverRowPlan(r1, L0, cols, w, R, cage, con, x, bs, 4);
    var t := UncoverRow(r1, cols, w, x, 4);
    PhaseEnd(L0, t.links, r1.conLock, t.conLock, cols, w, R, cage, con, x, bs);
  }

  /**
   * removeConstraintsByRow(x) followed by resetConstraintsByRow(x) gives
   * back every pointer, every count and every constraint lock, leaves the
   * cage locks alone and leaves x's four columns active.
   */
  lemma RemoveReset(s: KState, cols: seq<int>, w: int, R: seq<seq<int>>, x: int)
    requires Ready(s, cols, w, R, x)
    ensures var r := ResetRow(RemoveRow(s, cols, w, x), cols, w, x);
      r.links == s.links && r.conLock == s.conLock && r.cageLock == s.cageLock &&
      forall j :: 0 <= j < w ==> r.active[j] == (s.active[j] || RowHas(cols, j, x))
  {
    var s1 := KState(s.links, s.active[cols[4 * x] := false][cols[4 * x + 1] := false][cols[4 * x + 2] := false][cols[4 * x + 3] := false],
                     s.cageLock, s.conLock);
    assert Ready(s1, cols, w, R, x);
    CoverRowPlan(s1, cols, w, R, x, 4);
    var r1 := RemoveRow(s, cols, w, x);
    assert r1 == CoverRow(s1, cols, w, x, 4);
    var r2 := KState(r1.links, r1.active[cols[4 * x] := true][cols[4 * x + 1] := true][cols[4 * x + 2] := true][cols[4 * x + 3] := true],
                     r1.cageLock, r1.conLock);
    assert Started(s.links, r2.links, r2.conLock, cols, w, R, s.cageLock, s.conLock, x);
    ResetBack(r2, s.links, cols, w, R, s.cageLock, s.conLock, x);
    assert ResetRow(r1, cols, w, x) == UncoverRow(r2, cols, w, x, 4);
  }
}
