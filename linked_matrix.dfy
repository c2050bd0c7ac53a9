/**
 * The cover matrix of an order-n grid as both ring solvers lay it out in
 * the node arena: w = 4N^2 column headers, then four constraint nodes per
 * matrix row, node w + 4x + k sitting in row x's family-k column.  This
 * module holds what the two solvers share: the column of every node, the
 * row loop of initMatrix with what it leaves in every column, the steps
 * along a row and the column findMinCol picks.
 */
module LinkedMatrix {
  import opened Layout
  import opened Cells
  import opened Rings

  /** The column of constraint node w + i, for the 4N^3 nodes of an order-n grid. */
  function Cols(b: int, n: int): (cols: seq<int>)
    requires IsDims(b, n)
    ensures |cols| == 4 * (n * n * n) && Columns(cols, 4 * n * n)
    ensures forall x, k {:trigger FamilyColumn(b, n, k, x)} :: 0 <= x < n * n * n && 0 <= k < 4 ==> cols[4 * x + k] == FamilyColumn(b, n, k, x)
  {
    ColsFacts(b, n);
    ColsUpTo(b, n, 4 * (n * n * n))
  }

  /** The columns of the first t constraint nodes, node by node. */
  function ColsUpTo(b: int, n: int, t: nat): (cols: seq<int>)
    requires IsDims(b, n)
    ensures |cols| == t
  {
    if t == 0 then [] else ColsUpTo(b, n, t - 1) + [FamilyColumn(b, n, (t - 1) % 4, (t - 1) / 4)]
  }

  /** Entry i of the first t columns is node i's family column. */
  lemma {:induction false} ColsUpToAt(b: int, n: int, t: nat, i: int)
    requires IsDims(b, n) && 0 <= i < t
    ensures ColsUpTo(b, n, t)[i] == FamilyColumn(b, n, i % 4, i / 4)
  {
    if i < t - 1 {
      ColsUpToAt(b, n, t - 1, i);
    }
  }

  /** The family column of constraint node w + i is a column of the arena. */
  lemma ColsEntry(b: int, n: int, i: int)
    requires IsDims(b, n) && 0 <= i < 4 * (n * n * n)
    ensures 0 <= FamilyColumn(b, n, i % 4, i / 4) < 4 * n * n
  {
    var x := i / 4;
    assert 0 <= x < n * n * n;
    ColumnBands(b, n, x);
  }

  /** The columns Cols builds: as many as the constraint nodes, each in the arena, node w + 4x + k in family k's column of row x. */
  lemma ColsFacts(b: int, n: int)
    requires IsDims(b, n)
    ensures var cols := ColsUpTo(b, n, 4 * (n * n * n));
      |cols| == 4 * (n * n * n) && Columns(cols, 4 * n * n) &&
      forall x, k {:trigger FamilyColumn(b, n, k, x)} :: 0 <= x < n * n * n && 0 <= k < 4 ==> cols[4 * x + k] == FamilyColumn(b, n, k, x)
  {
    var t := 4 * (n * n * n);
    var cols := ColsUpTo(b, n, t);
    forall i | 0 <= i < |cols|
      ensures 0 <= cols[i] < 4 * n * n
    {
      ColsUpToAt(b, n, t, i);
      ColsEntry(b, n, i);
    }
    forall x, k | 0 <= x < n * n * n && 0 <= k < 4
      ensures cols[4 * x + k] == FamilyColumn(b, n, k, x)
    {
      ColsFamily(b, n, t, x, k);
    }
  }

  /** Node 4x + k of the first t is family k of row x. */
  lemma ColsFamily(b: int, n: int, t: nat, x: int, k: int)
    requires IsDims(b, n) && 0 <= x && 0 <= k < 4 && 4 * x + k < t
    ensures ColsUpTo(b, n, t)[4 * x + k] == FamilyColumn(b, n, k, x)
  {
    var i := 4 * x + k;
    assert i / 4 == x && i % 4 == k;
    ColsUpToAt(b, n, t, i);
  }

  /** The nodes of column j among the first t constraint nodes, newest first. */
  function ColumnNodes(cols: seq<int>, w: int, j: int, t: int): (nodes: seq<int>)
    requires 0 <= t <= |cols|
    ensures InColumn(cols, w, j, nodes)
    ensures forall i :: 0 <= i < |nodes| ==> nodes[i] < w + t
  {
    if t == 0 then []
    else if cols[t - 1] == j then [w + t - 1] + ColumnNodes(cols, w, j, t - 1)
    else ColumnNodes(cols, w, j, t - 1)
  }

  /** The arena before the row loop: each header alone in its ring with count n; unbuilt nodes point at their column's header. */
  function Blank(cols: seq<int>, w: int, n: int): (L: Links)
    requires w > 0 && Columns(cols, w)
    ensures Ordered(L, cols, w) && forall j :: 0 <= j < w ==> Ring(L, cols, w, j, [])
  {
    var home := seq(w + |cols|, p requires 0 <= p < w + |cols| => if p < w then p else cols[p - w]);
    var L := Links(home, home, seq(w, j => n));
    assert forall p :: 0 <= p < w + |cols| ==> Hooked(L, cols, w, p);
    L
  }

  /** Every column's ring lists exactly its nodes among the first t. */
  predicate AllRings(L: Links, cols: seq<int>, w: int, t: int)
    requires Arena(L, cols, w) && 0 <= t <= |cols|
  {
    forall j :: 0 <= j < w ==> Ring(L, cols, w, j, ColumnNodes(cols, w, j, t))
  }

  /** The arena after initMatrix's row loop has built and added the first t constraint nodes. */
  function Built(cols: seq<int>, w: int, n: int, t: int): (L: Links)
    requires w > 0 && Columns(cols, w) && 0 <= t <= |cols|
    ensures Ordered(L, cols, w) && L.sums == seq(w, j => n) && AllRings(L, cols, w, t)
    decreases t
  {
    if t == 0 then Blank(cols, w, n)
    else
      var L := Built(cols, w, n, t - 1);
      BuiltStep(L, cols, w, t - 1);
      AddVertical(L, cols[t - 1], w + t - 1)
  }

  /** Adding node w + t under its header extends its column's list and leaves the others. */
  lemma BuiltStep(L: Links, cols: seq<int>, w: int, t: int)
    requires Ordered(L, cols, w) && 0 <= t < |cols| && AllRings(L, cols, w, t)
    ensures 0 <= cols[t] < w && 0 <= L.below[cols[t]] < |L.below|
    ensures Ordered(AddVertical(L, cols[t], w + t), cols, w) && AllRings(AddVertical(L, cols[t], w + t), cols, w, t + 1)
  {
    var h := cols[t];
    assert Ring(L, cols, w, h, ColumnNodes(cols, w, h, t));
    AddKeeps(L, cols, w, t, h);
    var L' := AddVertical(L, h, w + t);
    forall j {:trigger ColumnNodes(cols, w, j, t + 1)} | 0 <= j < w
      ensures Ring(L', cols, w, j, ColumnNodes(cols, w, j, t + 1))
    {
      assert Ring(L, cols, w, j, ColumnNodes(cols, w, j, t));
      AddKeeps(L, cols, w, t, j);
    }
  }

  /** One column's ring after node w + t is added under its header. */
  lemma AddKeeps(L: Links, cols: seq<int>, w: int, t: int, j: int)
    requires Ordered(L, cols, w) && 0 <= t < |cols| && 0 <= j < w
    requires Ring(L, cols, w, cols[t], ColumnNodes(cols, w, cols[t], t)) && Ring(L, cols, w, j, ColumnNodes(cols, w, j, t))
    ensures 0 <= cols[t] < w && 0 <= L.below[cols[t]] < |L.below|
    ensures Ordered(AddVertical(L, cols[t], w + t), cols, w)
    ensures Ring(AddVertical(L, cols[t], w + t), cols, w, j, ColumnNodes(cols, w, j, t + 1))
  {
    var h, p := cols[t], w + t;
    var nodes := ColumnNodes(cols, w, h, t);
    RingAdd(L, cols, w, h, nodes, p, j, ColumnNodes(cols, w, j, t));
    if j == h {
      assert ColumnNodes(cols, w, j, t + 1) == [p] + nodes;
    }
  }

  /** The matrix rows of a list of constraint nodes. */
  function RowsOf(w: int, nodes: seq<int>): (rows: seq<int>)
    ensures |rows| == |nodes| && forall i :: 0 <= i < |nodes| ==> rows[i] == RowOf(w, nodes[i])
  {
    seq(|nodes|, i requires 0 <= i < |nodes| => RowOf(w, nodes[i]))
  }

  /** RowsOf distributes over concatenation. */
  lemma RowsOfAppend(w: int, a: seq<int>, c: seq<int>)
    ensures RowsOf(w, a + c) == RowsOf(w, a) + RowsOf(w, c)
  {
  }

  /** Column j's part of row y's first k nodes, last node first. */
  function RowPart(cols: seq<int>, w: int, j: int, y: int, k: int): seq<int>
    requires 0 <= y && 0 <= k <= 4 && 4 * y + k <= |cols|
    decreases k
  {
    if k == 0 then [] else (if cols[4 * y + k - 1] == j then [w + 4 * y + k - 1] else []) + RowPart(cols, w, j, y, k - 1)
  }

  /** Building row y's first k nodes puts column j's part of them ahead of the older nodes. */
  lemma {:induction false} NodesOfRow(cols: seq<int>, w: int, j: int, y: int, k: int)
    requires 0 <= y && 0 <= k <= 4 && 4 * y + k <= |cols|
    ensures ColumnNodes(cols, w, j, 4 * y + k) == RowPart(cols, w, j, y, k) + ColumnNodes(cols, w, j, 4 * y)
    decreases k
  {
    if k > 0 {
      NodesOfRow(cols, w, j, y, k - 1);
    }
  }

  /** Row y's four nodes sit in four different columns. */
  predicate Apart(cols: seq<int>, y: int)
    requires 0 <= y && 4 * y + 4 <= |cols|
  {
    var c0, c1, c2, c3 := cols[4 * y], cols[4 * y + 1], cols[4 * y + 2], cols[4 * y + 3];
    c0 != c1 && c0 != c2 && c0 != c3 && c1 != c2 && c1 != c3 && c2 != c3
  }

  /** Row y has a node in column j. */
  predicate RowHas(cols: seq<int>, j: int, y: int)
    requires 0 <= y && 4 * y + 4 <= |cols|
  {
    cols[4 * y] == j || cols[4 * y + 1] == j || cols[4 * y + 2] == j || cols[4 * y + 3] == j
  }

  /** The rows below x with a node in column j, largest first. */
  function RowsWith(cols: seq<int>, j: int, x: int): seq<int>
    requires 0 <= x && 4 * x <= |cols|
    decreases x
  {
    if x == 0 then [] else (if RowHas(cols, j, x - 1) then [x - 1] else []) + RowsWith(cols, j, x - 1)
  }

  /** A row whose nodes are apart contributes itself once to a column it has a node in, and nothing otherwise. */
  lemma RowPartRows(cols: seq<int>, w: int, j: int, y: int)
    requires 0 <= y && 4 * y + 4 <= |cols| && Apart(cols, y)
    ensures RowsOf(w, RowPart(cols, w, j, y, 4)) == if RowHas(cols, j, y) then [y] else []
  {
    var part := RowPart(cols, w, j, y, 4);
    assert part == (if cols[4 * y + 3] == j then [w + 4 * y + 3] else []) + (if cols[4 * y + 2] == j then [w + 4 * y + 2] else []) +
      (if cols[4 * y + 1] == j then [w + 4 * y + 1] else []) + (if cols[4 * y] == j then [w + 4 * y] else []);
    if RowHas(cols, j, y) {
      var k :| 0 <= k < 4 && cols[4 * y + k] == j;
      assert part == [w + 4 * y + k];
      assert (w + 4 * y + k - w) / 4 == y;
    } else {
      assert part == [];
    }
  }

  /** With every row apart, a column's nodes among the first x rows belong to the rows that have a node in it. */
  lemma {:induction false} NodesRows(cols: seq<int>, w: int, j: int, x: int)
    requires 0 <= x && 4 * x <= |cols| && forall y :: 0 <= y < x ==> Apart(cols, y)
    ensures RowsOf(w, ColumnNodes(cols, w, j, 4 * x)) == RowsWith(cols, j, x)
    decreases x
  {
    if x > 0 {
      var y := x - 1;
      NodesRows(cols, w, j, y);
      NodesOfRow(cols, w, j, y, 4);
      RowPartRows(cols, w, j, y);
      RowsOfAppend(w, RowPart(cols, w, j, y, 4), ColumnNodes(cols, w, j, 4 * y));
    }
  }

  /** In an order-n grid's layout, row y's nodes are apart and it has a node in j exactly when it covers j. */
  lemma RowOfGrid(b: int, n: int, j: int, y: int)
    requires IsDims(b, n) && 0 <= y < n * n * n
    ensures 4 * y + 4 <= |Cols(b, n)| && Apart(Cols(b, n), y)
    ensures RowHas(Cols(b, n), j, y) <==> Covers(b, n, y, j)
  {
    var cols := Cols(b, n);
    ColumnBands(b, n, y);
    assert cols[4 * y] == FamilyColumn(b, n, 0, y) && cols[4 * y + 1] == FamilyColumn(b, n, 1, y);
    assert cols[4 * y + 2] == FamilyColumn(b, n, 2, y) && cols[4 * y + 3] == FamilyColumn(b, n, 3, y);
    if Covers(b, n, y, j) {
      var k :| 0 <= k < 4 && FamilyColumn(b, n, k, y) == j;
      assert cols[4 * y + k] == j;
    }
  }

  /** Where having a node in column j and covering j agree on the rows below x, so do the two row lists. */
  lemma {:induction false} RowsWithCovering(b: int, n: int, cols: seq<int>, j: int, x: int)
    requires IsDims(b, n) && 0 <= x && 4 * x <= |cols|
    requires forall y :: 0 <= y < x ==> (RowHas(cols, j, y) <==> Covers(b, n, y, j))
    ensures RowsWith(cols, j, x) == CoveringRows(b, n, j, x)
    decreases x
  {
    if x > 0 {
      var y := x - 1;
      RowsWithCovering(b, n, cols, j, y);
      assert RowHas(cols, j, y) <==> Covers(b, n, y, j);
    }
  }

  /**
   * A column of an order-n grid, once the rows below x are built, lists
   * exactly the rows below x that cover it, in decreasing order.
   */
  lemma ColumnRows(b: int, n: int, j: int, x: int)
    requires IsDims(b, n) && 0 <= x <= n * n * n
    ensures 4 * x <= |Cols(b, n)|
    ensures RowsOf(4 * n * n, ColumnNodes(Cols(b, n), 4 * n * n, j, 4 * x)) == CoveringRows(b, n, j, x)
  {
    var cols := Cols(b, n);
    forall y | 0 <= y < x
      ensures 4 * y + 4 <= |cols| && Apart(cols, y) && (RowHas(cols, j, y) <==> Covers(b, n, y, j))
    {
      RowOfGrid(b, n, j, y);
    }
    NodesRows(cols, 4 * n * n, j, x);
    RowsWithCovering(b, n, cols, j, x);
  }

  /** Once every row is built, a column lists its N covering rows in decreasing row order. */
  lemma ColumnHoldsN(b: int, n: int, j: int)
    requires IsDims(b, n) && 0 <= j < 4 * n * n
    ensures var nodes := ColumnNodes(Cols(b, n), 4 * n * n, j, 4 * (n * n * n));
      |nodes| == n && RowsOf(4 * n * n, nodes) == CoveringRows(b, n, j, n * n * n)
  {
    ColumnRows(b, n, j, n * n * n);
    ColumnHasNRows(b, n, j);
  }

  /** Every row's four nodes sit in four different columns. */
  predicate RowsApart(cols: seq<int>)
  {
    |cols| % 4 == 0 && forall y :: 0 <= y < |cols| / 4 ==> 4 * y + 4 <= |cols| && Apart(cols, y)
  }

  /** An order-n grid's rows are apart. */
  lemma ColsApart(b: int, n: int)
    requires IsDims(b, n)
    ensures RowsApart(Cols(b, n))
  {
    var cols := Cols(b, n);
    forall y | 0 <= y < |cols| / 4
      ensures 4 * y + 4 <= |cols| && Apart(cols, y)
    {
      RowOfGrid(b, n, 0, y);
    }
  }

  /** Two nodes of one row in different families lie in different columns. */
  lemma RowApart(cols: seq<int>, w: int, q: int, p: int)
    requires RowsApart(cols) && IsNode(cols, w, q) && IsNode(cols, w, p)
    requires RowOf(w, p) == RowOf(w, q) && FamilyOf(w, p) != FamilyOf(w, q)
    ensures cols[p - w] != cols[q - w]
  {
    var x := RowOf(w, q);
    assert q - w == 4 * x + FamilyOf(w, q) && p - w == 4 * x + FamilyOf(w, p);
    assert 0 <= x < |cols| / 4;
    assert Apart(cols, x);
  }

  /** The span a walk drops at node q, the three nodes right of q, has no node in q's column. */
  lemma SpanMisses(cols: seq<int>, w: int, q: int)
    requires RowsApart(cols) && IsNode(cols, w, q)
    ensures IsNode(cols, w, Right(w, q)) && Hits(cols, w, Right(w, q), 3, cols[q - w]) == 0
  {
    var p1 := Right(w, q);
    RightNode(cols, w, q);
    var p2 := Right(w, p1);
    RightNode(cols, w, p1);
    var p3 := Right(w, p2);
    RightNode(cols, w, p2);
    RightNode(cols, w, p3);
    RowApart(cols, w, q, p1);
    RowApart(cols, w, q, p2);
    RowApart(cols, w, q, p3);
    assert Hits(cols, w, p3, 1, cols[q - w]) == 0;
    assert Hits(cols, w, p2, 2, cols[q - w]) == 0;
  }

  /** Once the row loop has run, walking down from a header lists its ColumnNodes. */
  lemma InitialWalk(cols: seq<int>, w: int, n: int, h: int)
    requires w > 0 && Columns(cols, w) && 0 <= h < w
    ensures var L := Built(cols, w, n, |cols|);
      0 <= L.below[h] < w + |cols| && WalkFrom(L, cols, w, L.below[h]) == ColumnNodes(cols, w, h, |cols|)
  {
    var L := Built(cols, w, n, |cols|);
    assert Ring(L, cols, w, h, ColumnNodes(cols, w, h, |cols|));
    RingWalk(L, cols, w, h, ColumnNodes(cols, w, h, |cols|));
  }

  /**
   * findMinCol's loop from column i with the choice best so far: the first
   * active column whose count is strictly below the best so far's.
   */
  function MinFrom(sums: seq<int>, active: seq<bool>, i: int, best: int): (c: int)
    requires |sums| == |active| && 0 <= i <= |active| && -1 <= best < i
    requires best == -1 <==> forall j :: 0 <= j < i ==> !active[j]
    requires best != -1 ==> active[best] && forall j :: 0 <= j < i && active[j] ==> sums[best] <= sums[j] && (j < best ==> sums[best] < sums[j])
    ensures -1 <= c < |active|
    ensures c == -1 <==> forall j :: 0 <= j < |active| ==> !active[j]
    ensures c != -1 ==> active[c] && forall j :: 0 <= j < |active| && active[j] ==> sums[c] <= sums[j] && (j < c ==> sums[c] < sums[j])
    decreases |active| - i
  {
    if i == |active| then best
    else if active[i] && (best == -1 || sums[i] < sums[best]) then MinFrom(sums, active, i + 1, i)
    else MinFrom(sums, active, i + 1, best)
  }

  /**
   * findMinCol: -1 (null) exactly when no column is active, otherwise the
   * lowest-numbered active column of least count.
   */
  function MinActive(sums: seq<int>, active: seq<bool>): (c: int)
    requires |sums| == |active|
    ensures -1 <= c < |active|
    ensures c == -1 <==> forall j :: 0 <= j < |active| ==> !active[j]
    ensures c != -1 ==> active[c] && forall j :: 0 <= j < |active| && active[j] ==> sums[c] <= sums[j] && (j < c ==> sums[c] < sums[j])
  {
    MinFrom(sums, active, 0, -1)
  }

  /** Node w + 4x + k is family k of row x. */
  lemma NodeParts(w: int, x: int, k: int)
    requires 0 <= x && 0 <= k < 4
    ensures RowOf(w, Node(w, x, k)) == x && FamilyOf(w, Node(w, x, k)) == k
  {
    assert Node(w, x, k) - w == 4 * x + k;
  }

  /** A node of row x is one of its four. */
  lemma NodeOfRow(w: int, x: int, p: int)
    requires p >= w && RowOf(w, p) == x
    ensures p == Node(w, x, FamilyOf(w, p)) && 0 <= FamilyOf(w, p) < 4
  {
  }

  /** The nodes before row x's lie in earlier rows, the next four in row x. */
  lemma RowBound(w: int, x: int, p: int)
    requires w <= p < w + 4 * x + 4
    ensures p < w + 4 * x ==> RowOf(w, p) < x
    ensures p >= w + 4 * x ==> RowOf(w, p) == x
  {
  }

  /** A node below w + 4 * rows lies in one of the first rows rows. */
  lemma RowInRange(w: int, q: int, rows: int)
    requires w <= q < w + 4 * rows
    ensures 0 <= RowOf(w, q) < rows
  {
  }

  /** The node i steps right of q. */
  function Round(w: int, q: int, i: nat): int
  {
    if i == 0 then q else Right(w, Round(w, q, i - 1))
  }

  /** i steps right of q stay in q's row and go i families round. */
  lemma {:induction false} RoundParts(cols: seq<int>, w: int, q: int, i: nat)
    requires |cols| % 4 == 0 && IsNode(cols, w, q)
    ensures IsNode(cols, w, Round(w, q, i)) && RowOf(w, Round(w, q, i)) == RowOf(w, q)
    ensures FamilyOf(w, Round(w, q, i)) == (FamilyOf(w, q) + i) % 4
  {
    if i > 0 {
      RoundParts(cols, w, q, i - 1);
      RightNode(cols, w, Round(w, q, i - 1));
    }
  }

  /** Walking right from q comes back to q after four steps and not before. */
  lemma RoundTrip(cols: seq<int>, w: int, q: int, i: nat)
    requires |cols| % 4 == 0 && IsNode(cols, w, q) && 1 <= i <= 4
    ensures IsNode(cols, w, Round(w, q, i)) && (Round(w, q, i) == q <==> i == 4)
  {
    var p := Round(w, q, i);
    RoundParts(cols, w, q, i);
    assert p - w == 4 * RowOf(w, p) + FamilyOf(w, p);
    assert q - w == 4 * RowOf(w, q) + FamilyOf(w, q);
  }

  /** Node p of L is as in B when p < t, and points at itself, as a newly created node does, from t on. */
  ghost predicate StagedAt(L: Links, B: Links, t: int, p: int)
    requires 0 <= p < |L.above| && p < |L.below| && p < |B.above| && p < |B.below|
  {
    L.above[p] == (if p < t then B.above[p] else p) && L.below[p] == (if p < t then B.below[p] else p)
  }

  /** The arena L is B with every node from t on still unlinked. */
  ghost predicate Staged(L: Links, B: Links, t: int)
  {
    |L.above| == |L.below| == |B.above| == |B.below| && L.sums == B.sums &&
    forall p :: 0 <= p < |L.below| ==> StagedAt(L, B, t, p)
  }

  /** The headers pointing at themselves, no node linked yet, every count n: the arena before the row loop. */
  lemma StagedStart(L: Links, cols: seq<int>, w: int, n: int)
    requires w > 0 && Columns(cols, w) && |L.above| == |L.below| == w + |cols| && L.sums == seq(w, j => n)
    requires forall p :: 0 <= p < |L.above| ==> L.above[p] == p && L.below[p] == p
    ensures Staged(L, Built(cols, w, n, 0), w)
  {
  }

  /**
   * addVertical of node w + t under its header, on an arena that is
   * Built(t) with its later nodes unlinked, gives Built(t + 1) with the
   * nodes from w + t + 1 on unlinked.
   */
  lemma StagedStep(L: Links, cols: seq<int>, w: int, n: int, t: int)
    requires w > 0 && Columns(cols, w) && 0 <= t < |cols| && Staged(L, Built(cols, w, n, t), w + t)
    ensures 0 <= cols[t] < w && 0 <= L.below[cols[t]] < |L.below| && cols[t] != w + t
    ensures Staged(AddVertical(L, cols[t], w + t), Built(cols, w, n, t + 1), w + t + 1)
  {
    var B := Built(cols, w, n, t);
    var h, p := cols[t], w + t;
    BuiltStep(B, cols, w, t);
    var nodes := ColumnNodes(cols, w, h, t);
    assert Ring(B, cols, w, h, nodes);
    var f := B.below[h];
    assert f == Down(nodes, h, -1);
    assert f < p;
    assert StagedAt(L, B, p, h);
    var A := AddVertical(L, h, p);
    var B' := AddVertical(B, h, p);
    forall q | 0 <= q < |L.below|
      ensures A.above[q] == (if q <= p then B'.above[q] else q) && A.below[q] == (if q <= p then B'.below[q] else q)
    {
      assert StagedAt(L, B, p, q);
    }
  }

  /** Once every node is added, the staged arena is Built. */
  lemma StagedAll(L: Links, cols: seq<int>, w: int, n: int)
    requires w > 0 && Columns(cols, w) && Staged(L, Built(cols, w, n, |cols|), w + |cols|)
    ensures L == Built(cols, w, n, |cols|)
  {
    var B := Built(cols, w, n, |cols|);
    forall q | 0 <= q < |L.below|
      ensures L.above[q] == B.above[q] && L.below[q] == B.below[q]
    {
      assert StagedAt(L, B, w + |cols|, q);
    }
  }

  /** The three drops right of q leave q's own pointers alone. */
  lemma DropKeeps(L: Links, cols: seq<int>, w: int, q: int)
    requires Ordered(L, cols, w) && RowsApart(cols) && IsNode(cols, w, q)
    ensures IsNode(cols, w, Right(w, q)) && Hooked(L, cols, w, q)
    ensures DropSpan(L, cols, w, Right(w, q), 3).below[q] == L.below[q]
  {
    SpanMisses(cols, w, q);
    assert Hooked(L, cols, w, q);
    DropSpanKeeps(L, cols, w, Right(w, q), 3, q);
  }

  /** The three lifts right of q leave q's own pointers alone. */
  lemma LiftKeeps(L: Links, cols: seq<int>, w: int, q: int)
    requires Ordered(L, cols, w) && RowsApart(cols) && IsNode(cols, w, q)
    ensures IsNode(cols, w, Right(w, q)) && Hooked(L, cols, w, q)
    ensures LiftSpan(L, cols, w, Right(w, q), 3).below[q] == L.below[q]
  {
    SpanMisses(cols, w, q);
    assert Hooked(L, cols, w, q);
    LiftSpanKeeps(L, cols, w, Right(w, q), 3, q);
  }

  /** A span of i drops from p is the drop of p, then the span of i - 1 from p's right neighbour. */
  lemma DropSpanStep(L: Links, cols: seq<int>, w: int, p: int, i: int)
    requires Ordered(L, cols, w) && IsNode(cols, w, p) && 1 <= i <= 4
    ensures IsNode(cols, w, Right(w, p)) && Hooked(L, cols, w, p)
    ensures DropSpan(L, cols, w, p, i) == DropSpan(Drop(L, cols, w, p), cols, w, Right(w, p), i - 1)
  {
    RightNode(cols, w, p);
  }

  /** A span of i lifts from p is the lift of p, then the span of i - 1 from p's right neighbour. */
  lemma LiftSpanStep(L: Links, cols: seq<int>, w: int, p: int, i: int)
    requires Ordered(L, cols, w) && IsNode(cols, w, p) && 1 <= i <= 4
    ensures IsNode(cols, w, Right(w, p)) && Hooked(L, cols, w, p)
    ensures LiftSpan(L, cols, w, p, i) == LiftSpan(Lift(L, cols, w, p), cols, w, Right(w, p), i - 1)
  {
    RightNode(cols, w, p);
  }

  /** A detach, then one off the node's column count, is Drop. */
  lemma DropIs(L: Links, above: seq<int>, below: seq<int>, sums: seq<int>, cols: seq<int>, w: int, p: int)
    requires Ordered(L, cols, w) && IsNode(cols, w, p) && Hooked(L, cols, w, p)
    requires above == Detach(L, p).above && below == Detach(L, p).below && sums == L.sums[cols[p - w] := L.sums[cols[p - w]] - 1]
    ensures Links(above, below, sums) == Drop(L, cols, w, p)
  {
  }

  /** A reattach, then one more on the node's column count, is Lift. */
  lemma LiftIs(L: Links, above: seq<int>, below: seq<int>, sums: seq<int>, cols: seq<int>, w: int, p: int)
    requires Ordered(L, cols, w) && IsNode(cols, w, p) && Hooked(L, cols, w, p)
    requires above == Reattach(L, p).above && below == Reattach(L, p).below && sums == L.sums[cols[p - w] := L.sums[cols[p - w]] + 1]
    ensures Links(above, below, sums) == Lift(L, cols, w, p)
  {
  }

  /** The four columns of matrix row x, as the index functions compute them. */
  lemma RowColumns(b: int, n: int, x: int)
    requires IsDims(b, n) && 0 <= x < n * n * n
    ensures var cols := Cols(b, n);
      4 * x + 3 < |cols| && cols[4 * x] == CellColumn(n, x) && cols[4 * x + 1] == RowColumn(n, x) &&
      cols[4 * x + 2] == ColColumn(n, x) && cols[4 * x + 3] == BoxColumn(b, n, x)
  {
    assert FamilyColumn(b, n, 0, x) == CellColumn(n, x);
    assert FamilyColumn(b, n, 1, x) == RowColumn(n, x);
    assert FamilyColumn(b, n, 2, x) == ColColumn(n, x);
    assert FamilyColumn(b, n, 3, x) == BoxColumn(b, n, x);
  }

  /** Every cell whose cell column is inactive holds a value. */
  predicate Marked(active: seq<bool>, v: Values, n: int)
    requires IsGrid(v, n)
  {
    forall r, c :: 0 <= r < n && 0 <= c < n && 0 <= r * n + c < |active| && !active[r * n + c] ==> v[r][c] != 0
  }

  /** Row x's cell column is r*n + c for its cell (r, c); its other columns lie beyond the cell band. */
  lemma CellColumnIs(b: int, n: int, x: int)
    requires IsDims(b, n) && 0 <= x < n * n * n
    ensures 0 <= GridRow(n, x) < n && 0 <= GridCol(n, x) < n
    ensures FamilyColumn(b, n, 0, x) == GridRow(n, x) * n + GridCol(n, x)
    ensures forall k :: 1 <= k < 4 ==> FamilyColumn(b, n, k, x) >= n * n
  {
    ColumnBands(b, n, x);
    EncodeDecode(n, x);
    ColumnsOfRowId(b, n, GridRow(n, x), GridCol(n, x), GridDigit(n, x));
  }

  /** Cell indices r*n + c name cells one to one. */
  lemma CellIndexInjective(n: int, r: int, c: int, r': int, c': int)
    requires 0 <= c < n && 0 <= c' < n && r * n + c == r' * n + c'
    ensures r == r' && c == c'
  {
    SplitLow(n, r, c);
    SplitLow(n, r', c');
  }

  /** Cell column r*n + c is one of row x's columns exactly when x is a row of cell (r, c). */
  lemma CellColumnOfRow(b: int, n: int, x: int, r: int, c: int)
    requires IsDims(b, n) && 0 <= x < n * n * n && 0 <= r < n && 0 <= c < n
    ensures 0 <= r * n + c < n * n && 4 * x + 4 <= |Cols(b, n)|
    ensures RowHas(Cols(b, n), r * n + c, x) <==> r == GridRow(n, x) && c == GridCol(n, x)
  {
    LowPart(n, r, c);
    var j := r * n + c;
    RowOfGrid(b, n, j, x);
    CellColumnIs(b, n, x);
    if Covers(b, n, x, j) {
      var k :| 0 <= k < 4 && FamilyColumn(b, n, k, x) == j;
      assert k == 0;
      CellIndexInjective(n, r, c, GridRow(n, x), GridCol(n, x));
    }
    if r == GridRow(n, x) && c == GridCol(n, x) {
      assert FamilyColumn(b, n, 0, x) == j;
    }
  }

  /** The nesting depth the model allows performCalcs: one more than the number of columns. */
  function Depth(n: int): nat
  {
    if n < 0 then 1 else 4 * n * n + 1
  }
}
