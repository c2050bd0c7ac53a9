/**
 * DancingLinksSolver's matrix as mutable state.  Every Node object is an
 * address of the arena (headers 0 .. w-1, then four constraint nodes per
 * matrix row), and its fields are entries of the arrays above, below,
 * right and left; the headers' colSum and isActive fields are the arrays
 * colSum and isActive.  Every operation is proved to leave the state the
 * functions of DancingLinksModel compute.
 */
module DancingLinks {
  import opened Layout
  import opened Cells
  import opened Rings
  import opened LinkedMatrix
  import opened DancingLinksModel
  import Alpha = Alphabet
  import G = StdGrid

  /** The left pointer of constraint node p: the previous family of its row, the cell node going back to the box node. */
  function Left(w: int, p: int): int
  {
    if FamilyOf(w, p) == 0 then p + 3 else p - 1
  }

  /** A walk's step at node q: drop the three nodes right of q, then go on from q's lower neighbour, which the drops leave alone. */
  lemma CoverStep(L: Links, cols: seq<int>, w: int, q: int)
    requires Ordered(L, cols, w) && RowsApart(cols) && IsNode(cols, w, q)
    ensures IsNode(cols, w, Right(w, q)) && Hooked(L, cols, w, q)
    ensures var L1 := DropSpan(L, cols, w, Right(w, q), 3);
      L1.below[q] == L.below[q] && CoverFrom(L, cols, w, q) == CoverFrom(L1, cols, w, L.below[q])
  {
    DropKeeps(L, cols, w, q);
  }

  /** The reset walk's step at node q: lift the three nodes right of q, then go on from q's lower neighbour. */
  lemma UncoverStep(L: Links, cols: seq<int>, w: int, q: int)
    requires Ordered(L, cols, w) && RowsApart(cols) && IsNode(cols, w, q)
    ensures IsNode(cols, w, Right(w, q)) && Hooked(L, cols, w, q)
    ensures var L1 := LiftSpan(L, cols, w, Right(w, q), 3);
      L1.below[q] == L.below[q] && UncoverFrom(L, cols, w, q) == UncoverFrom(L1, cols, w, L.below[q])
  {
    LiftKeeps(L, cols, w, q);
  }

  /** DancingLinksSolver's colHeaders and nodes. */
  class DLMatrix {
    const n: int
    const b: int
    /** The number of column headers, 4N^2. */
    const w: int
    /** The number of nodes, headers included. */
    const size: int
    const above: array<int>
    const below: array<int>
    const right: array<int>
    const left: array<int>
    const colSum: array<int>
    const isActive: array<bool>
    /** The column of every constraint node; fixed by the dimensions. */
    ghost const cols: seq<int>

    /** An order-n grid's matrix: the node columns Cols fixes. */
    ghost predicate Standard()
    {
      IsDims(b, n) && w == 4 * n * n && cols == Cols(b, n)
    }

    /** The node columns and the array sizes. */
    ghost predicate Shaped()
    {
      w > 0 && Columns(cols, w) && RowsApart(cols) && size == w + |cols| &&
      above.Length == size && below.Length == size && right.Length == size && left.Length == size &&
      colSum.Length == w && isActive.Length == w &&
      above != below && above != right && above != left && above != colSum &&
      below != right && below != left && below != colSum &&
      right != left && right != colSum && left != colSum
    }

    /** Node p's right and left pointers go to the next and the previous family of its row. */
    ghost predicate Wired(p: int)
      requires Shaped() && 0 <= p < size
      reads right, left
    {
      right[p] == Right(w, p) && left[p] == Left(w, p)
    }

    /** Shaped, and the horizontal pointers of every row go round its four families. */
    ghost predicate Valid()
      reads right, left
    {
      Shaped() && forall p :: w <= p < size ==> Wired(p)
    }

    /** The vertical pointers and the counts as a value. */
    function Links(): Rings.Links
      reads above, below, colSum
    {
      Rings.Links(above[..], below[..], colSum[..])
    }

    /** The matrix as a value. */
    function State(): DLState
      reads above, below, colSum, isActive
    {
      DLState(Links(), isActive[..])
    }

    /** Valid, and the state is a well-formed arena. */
    ghost predicate Ok()
      reads above, below, right, left, colSum, isActive
    {
      Valid() && Fit(State(), cols, w)
    }

    /**
     * The first part of initMatrix: every header with count dimensions,
     * then, row by row, four nodes joined left and right and each added
     * under its column's header.  It leaves DancingLinksModel.Initial.
     */
    constructor (dimensions: int, boxSize: int)
      requires IsDims(boxSize, dimensions)
      ensures n == dimensions && b == boxSize && Standard() && Ok() && State() == Initial(b, n)
      ensures fresh(above) && fresh(below) && fresh(right) && fresh(left) && fresh(colSum) && fresh(isActive)
    {
      var matrixRows := dimensions * dimensions * dimensions;
      var matrixCols := 4 * dimensions * dimensions;
      n := dimensions;
      b := boxSize;
      w := matrixCols;
      size := matrixCols + 4 * matrixRows;
      cols := Cols(boxSize, dimensions);
      above := new int[matrixCols + 4 * matrixRows](p => p);
      below := new int[matrixCols + 4 * matrixRows](p => p);
      right := new int[matrixCols + 4 * matrixRows](p => p);
      left := new int[matrixCols + 4 * matrixRows](p => p);
      colSum := new int[matrixCols](j => dimensions);
      isActive := new bool[matrixCols](j => true);
      new;
      ColsApart(b, n);
      StagedStart(Links(), cols, w, n);
      LinkRows();
      assert State() == Initial(b, n);
    }

    /** initMatrix's row loop: matrix row by row, four new nodes joined left and right, each added under its column's header. */
    method LinkRows()
      requires Standard() && Shaped() && Staged(Links(), Built(cols, w, n, 0), w)
      modifies above, below, right, left
      ensures Valid() && Links() == Built(cols, w, n, |cols|)
    {
      var matrixRows := n * n * n;
      var row := 0;
      ghost var t := 0;
      while row < matrixRows
        invariant 0 <= row <= matrixRows && t == 4 * row
        invariant Staged(Links(), Built(cols, w, n, t), w + t)
        invariant forall p :: w <= p < w + t ==> Wired(p)
      {
        var cellCol, rowCol, colCol, boxCol := ColumnsOfRow(row);
        AddRow(row, cellCol, rowCol, colCol, boxCol, t);
        row := row + 1;
        t := t + 4;
      }
      assert t == |cols|;
      StagedAll(Links(), cols, w, n);
    }

    /** The row loop's body for matrix row x, whose four columns are given: its four nodes joined into their row, then each added under its column's header. */
    method AddRow(x: int, cellCol: int, rowCol: int, colCol: int, boxCol: int, ghost t: int)
      requires Shaped() && 0 <= x < |cols| / 4 && t == 4 * x
      requires cellCol == cols[4 * x] && rowCol == cols[4 * x + 1] && colCol == cols[4 * x + 2] && boxCol == cols[4 * x + 3]
      requires Staged(Links(), Built(cols, w, n, t), w + t)
      requires forall p :: w <= p < w + t ==> Wired(p)
      modifies above, below, right, left
      ensures Staged(Links(), Built(cols, w, n, t + 4), w + (t + 4))
      ensures forall p :: w <= p < w + (t + 4) ==> Wired(p)
    {
      var cellConstraint, rowConstraint, colConstraint, boxConstraint := LinkRow(x);
      forall p | w <= p < w + (t + 4)
        ensures Wired(p)
      {
        RowBound(w, x, p);
        if p < w + t {
          assert old(Wired(p));
        }
      }
      AddNodes(cellCol, rowCol, colCol, boxCol, cellConstraint, rowConstraint, colConstraint, boxConstraint, t);
    }

    /** The four addVertical calls of the row loop's body, for the nodes w + t, ..., w + t + 3. */
    method AddNodes(cellCol: int, rowCol: int, colCol: int, boxCol: int,
                    cellConstraint: int, rowConstraint: int, colConstraint: int, boxConstraint: int, ghost t: int)
      requires Shaped() && 0 <= t && t + 4 <= |cols|
      requires cellCol == cols[t] && rowCol == cols[t + 1] && colCol == cols[t + 2] && boxCol == cols[t + 3]
      requires cellConstraint == w + t && rowConstraint == w + t + 1 && colConstraint == w + t + 2 && boxConstraint == w + t + 3
      requires Staged(Links(), Built(cols, w, n, t), w + t)
      modifies above, below
      ensures Staged(Links(), Built(cols, w, n, t + 4), w + (t + 4))
    {
      AddNode(cellCol, cellConstraint, t);
      AddNode(rowCol, rowConstraint, t + 1);
      AddNode(colCol, colConstraint, t + 2);
      AddNode(boxCol, boxConstraint, t + 3);
    }

    /** cellConstraintByRow, rowConstraintByRow, colConstraintByRow and boxConstraintByRow of matrix row x: its four columns. */
    method ColumnsOfRow(x: int) returns (cellCol: int, rowCol: int, colCol: int, boxCol: int)
      requires Standard() && 0 <= x < n * n * n
      ensures 4 * x + 3 < |cols| && cellCol == cols[4 * x] && rowCol == cols[4 * x + 1]
      ensures colCol == cols[4 * x + 2] && boxCol == cols[4 * x + 3]
    {
      cellCol := CellColumn(n, x);
      rowCol := RowColumn(n, x);
      colCol := ColColumn(n, x);
      boxCol := BoxColumn(b, n, x);
      RowColumns(b, n, x);
    }

    /** The four new Constraint nodes of matrix row x, joined left and right into their row's ring. */
    method LinkRow(x: int) returns (cellConstraint: int, rowConstraint: int, colConstraint: int, boxConstraint: int)
      requires Shaped() && 0 <= x < |cols| / 4
      modifies right, left
      ensures cellConstraint == Node(w, x, 0) && rowConstraint == Node(w, x, 1)
      ensures colConstraint == Node(w, x, 2) && boxConstraint == Node(w, x, 3)
      ensures forall p :: w <= p < size && RowOf(w, p) == x ==> Wired(p)
      ensures forall p :: 0 <= p < size && RowOf(w, p) != x ==> right[p] == old(right[p]) && left[p] == old(left[p])
    {
      cellConstraint, rowConstraint := Node(w, x, 0), Node(w, x, 1);
      colConstraint, boxConstraint := Node(w, x, 2), Node(w, x, 3);
      NodeParts(w, x, 0);
      NodeParts(w, x, 1);
      NodeParts(w, x, 2);
      NodeParts(w, x, 3);
      left[cellConstraint] := boxConstraint;
      right[cellConstraint] := rowConstraint;
      left[rowConstraint] := cellConstraint;
      right[rowConstraint] := colConstraint;
      left[colConstraint] := rowConstraint;
      right[colConstraint] := boxConstraint;
      left[boxConstraint] := colConstraint;
      right[boxConstraint] := cellConstraint;
      forall p | w <= p < size && RowOf(w, p) == x
        ensures Wired(p)
      {
        NodeOfRow(w, x, p);
      }
    }

    /** colHeaders[h].addVertical(p) in the row loop, p = w + t the next node to add: the loop's next step. */
    method AddNode(h: int, p: int, ghost t: int)
      requires Shaped() && 0 <= t < |cols| && p == w + t && h == cols[t]
      requires Staged(Links(), Built(cols, w, n, t), w + t)
      modifies above, below
      ensures Staged(Links(), Built(cols, w, n, t + 1), w + (t + 1))
    {
      StagedStep(Links(), cols, w, n, t);
      AddVertical(h, p);
    }

    /** addVertical of header h: node p goes right below h. */
    method AddVertical(h: int, p: int)
      requires Shaped() && 0 <= h < size && 0 <= p < size && h != p && 0 <= below[h] < size
      modifies above, below
      ensures Links() == Rings.AddVertical(old(Links()), h, p)
    {
      above[p] := h;
      below[p] := below[h];
      above[below[h]] := p;
      below[h] := p;
    }

    /** detachNode: the nodes above and below p are joined; p keeps its own pointers. */
    method DetachNode(p: int)
      requires Shaped() && 0 <= p < size && 0 <= above[p] < size && 0 <= below[p] < size
      modifies above, below
      ensures Links() == Detach(old(Links()), p)
    {
      below[above[p]] := below[p];
      above[below[p]] := above[p];
    }

    /** reatachNode: the nodes p still points to point back at p. */
    method ReattachNode(p: int)
      requires Shaped() && w <= p < size && Hooked(Links(), cols, w, p)
      modifies above, below
      ensures Links() == Reattach(old(Links()), p)
    {
      below[above[p]] := p;
      above[below[p]] := p;
    }

    /** The header reached going up from p: its column's header. */
    method HeaderOf(p: int) returns (node: int)
      requires Shaped() && Ordered(Links(), cols, w) && IsNode(cols, w, p)
      ensures node == cols[p - w]
    {
      node := p;
      while node >= w
        invariant 0 <= node < size && ColOf(cols, w, node) == cols[p - w]
        decreases if node < w then 0 else size - node + 1
      {
        assert Hooked(Links(), cols, w, node);
        node := above[node];
      }
    }

    /** decrementColumnOfConstraint: one off the count of p's column. */
    method DecrementColumnOfConstraint(p: int)
      requires Shaped() && Ordered(Links(), cols, w) && IsNode(cols, w, p)
      modifies colSum
      ensures Links() == Rings.Links(old(Links()).above, old(Links()).below, old(Links()).sums[cols[p - w] := old(Links()).sums[cols[p - w]] - 1])
    {
      var colHeader := HeaderOf(p);
      colSum[colHeader] := colSum[colHeader] - 1;
    }

    /** incrementColumnOfConstraint: one more on the count of p's column. */
    method IncrementColumnOfConstraint(p: int)
      requires Shaped() && Ordered(Links(), cols, w) && IsNode(cols, w, p)
      modifies colSum
      ensures Links() == Rings.Links(old(Links()).above, old(Links()).below, old(Links()).sums[cols[p - w] := old(Links()).sums[cols[p - w]] + 1])
    {
      var colHeader := HeaderOf(p);
      colSum[colHeader] := colSum[colHeader] + 1;
    }

    /** The inner loop's body: tempConstraint.detachNode(), then decrementColumnOfConstraint(tempConstraint). */
    method DropNode(p: int)
      requires Shaped() && Ordered(Links(), cols, w) && IsNode(cols, w, p)
      modifies above, below, colSum
      ensures Links() == Drop(old(Links()), cols, w, p)
    {
      ghost var L := Links();
      DetachOrdered(L, cols, w, p);
      DetachNode(p);
      DecrementColumnOfConstraint(p);
      DropIs(L, above[..], below[..], colSum[..], cols, w, p);
    }

    /** The inner loop's body at node p, k steps right of q: detach p, then on to p's right neighbour. */
    method DropAt(q: int, p: int, ghost k: int) returns (next: int)
      requires Valid() && Ordered(Links(), cols, w) && IsNode(cols, w, q)
      requires 0 <= k < 3 && p == Round(w, q, k + 1) && IsNode(cols, w, p)
      modifies above, below, colSum
      ensures Ordered(Links(), cols, w) && next == Round(w, q, k + 2) && IsNode(cols, w, next) && (next == q <==> k == 2)
      ensures DropSpan(Links(), cols, w, next, 2 - k) == DropSpan(old(Links()), cols, w, p, 3 - k)
    {
      DropSpanStep(Links(), cols, w, p, 3 - k);
      DropNode(p);
      assert Wired(p);
      next := right[p];
      RoundTrip(cols, w, q, k + 2);
    }

    /** removeConstraintsByCol's inner loop at node q: detach the three other nodes of q's row, left to right, each off its column's count. */
    method DetachRow(q: int)
      requires Valid() && Ordered(Links(), cols, w) && IsNode(cols, w, q)
      modifies above, below, colSum
      ensures IsNode(cols, w, Right(w, q)) && Links() == DropSpan(old(Links()), cols, w, Right(w, q), 3)
    {
      RightNode(cols, w, q);
      assert Wired(q);
      var tempConstraint := right[q];
      ghost var k := 0;
      RoundTrip(cols, w, q, 1);
      while tempConstraint != q
        invariant 0 <= k <= 3 && tempConstraint == Round(w, q, k + 1) && IsNode(cols, w, tempConstraint)
        invariant tempConstraint == q <==> k == 3
        invariant Ordered(Links(), cols, w)
        invariant DropSpan(Links(), cols, w, tempConstraint, 3 - k) == DropSpan(old(Links()), cols, w, Right(w, q), 3)
        decreases 3 - k
      {
        tempConstraint := DropAt(q, tempConstraint, k);
        k := k + 1;
      }
    }

    /** One step of removeConstraintsByCol's outer loop at node q: q's row's other nodes, then on to the node below q. */
    method CoverAt(q: int) returns (next: int)
      requires Valid() && Ordered(Links(), cols, w) && IsNode(cols, w, q)
      modifies above, below, colSum
      ensures Ordered(Links(), cols, w) && 0 <= next < q
      ensures CoverFrom(Links(), cols, w, next) == CoverFrom(old(Links()), cols, w, q)
    {
      CoverStep(Links(), cols, w, q);
      DetachRow(q);
      next := below[q];
    }

    /** removeConstraintsByCol: every row met going down column h detaches its other three nodes and takes them off their counts. */
    method RemoveConstraintsByCol(h: int)
      requires Valid() && Ordered(Links(), cols, w) && 0 <= h < w
      modifies above, below, colSum
      ensures Links() == Cover(old(Links()), cols, w, h)
    {
      assert Hooked(Links(), cols, w, h);
      var activeConstraint := below[h];
      ghost var target := CoverFrom(Links(), cols, w, activeConstraint);
      while activeConstraint >= w
        invariant Ordered(Links(), cols, w) && 0 <= activeConstraint < size
        invariant CoverFrom(Links(), cols, w, activeConstraint) == target
        decreases activeConstraint
      {
        activeConstraint := CoverAt(activeConstraint);
      }
    }

    /** The reset's inner loop body: tempConstraint.reatachNode(), then incrementColumnOfConstraint(tempConstraint). */
    method LiftNode(p: int)
      requires Shaped() && Ordered(Links(), cols, w) && IsNode(cols, w, p)
      modifies above, below, colSum
      ensures Links() == Lift(old(Links()), cols, w, p)
    {
      ghost var L := Links();
      ReattachOrdered(L, cols, w, p);
      ReattachNode(p);
      IncrementColumnOfConstraint(p);
      LiftIs(L, above[..], below[..], colSum[..], cols, w, p);
    }

    /** The inner loop's body at node p, k steps right of q: reattach p, then on to p's right neighbour. */
    method LiftAt(q: int, p: int, ghost k: int) returns (next: int)
      requires Valid() && Ordered(Links(), cols, w) && IsNode(cols, w, q)
      requires 0 <= k < 3 && p == Round(w, q, k + 1) && IsNode(cols, w, p)
      modifies above, below, colSum
      ensures Ordered(Links(), cols, w) && next == Round(w, q, k + 2) && IsNode(cols, w, next) && (next == q <==> k == 2)
      ensures LiftSpan(Links(), cols, w, next, 2 - k) == LiftSpan(old(Links()), cols, w, p, 3 - k)
    {
      LiftSpanStep(Links(), cols, w, p, 3 - k);
      LiftNode(p);
      assert Wired(p);
      next := right[p];
      RoundTrip(cols, w, q, k + 2);
    }

    /** resetConstraintsByCol's inner loop at node q: reattach the three other nodes of q's row, left to right, each back on its column's count. */
    method ReattachRow(q: int)
      requires Valid() && Ordered(Links(), cols, w) && IsNode(cols, w, q)
      modifies above, below, colSum
      ensures IsNode(cols, w, Right(w, q)) && Links() == LiftSpan(old(Links()), cols, w, Right(w, q), 3)
    {
      RightNode(cols, w, q);
      assert Wired(q);
      var tempConstraint := right[q];
      ghost var k := 0;
      RoundTrip(cols, w, q, 1);
      while tempConstraint != q
        invariant 0 <= k <= 3 && tempConstraint == Round(w, q, k + 1) && IsNode(cols, w, tempConstraint)
        invariant tempConstraint == q <==> k == 3
        invariant Ordered(Links(), cols, w)
        invariant LiftSpan(Links(), cols, w, tempConstraint, 3 - k) == LiftSpan(old(Links()), cols, w, Right(w, q), 3)
        decreases 3 - k
      {
        tempConstraint := LiftAt(q, tempConstraint, k);
        k := k + 1;
      }
    }

    /** One step of resetConstraintsByCol's outer loop at node q: q's row's other nodes, then on to the node below q. */
    method UncoverAt(q: int) returns (next: int)
      requires Valid() && Ordered(Links(), cols, w) && IsNode(cols, w, q)
      modifies above, below, colSum
      ensures Ordered(Links(), cols, w) && 0 <= next < q
      ensures UncoverFrom(Links(), cols, w, next) == UncoverFrom(old(Links()), cols, w, q)
    {
      UncoverStep(Links(), cols, w, q);
      ReattachRow(q);
      next := below[q];
    }

    /** resetConstraintsByCol: every row met going down column h reattaches its other three nodes and puts them back on their counts. */
    method ResetConstraintsByCol(h: int)
      requires Valid() && Ordered(Links(), cols, w) && 0 <= h < w
      modifies above, below, colSum
      ensures Links() == Uncover(old(Links()), cols, w, h)
    {
      assert Hooked(Links(), cols, w, h);
      var activeConstraint := below[h];
      ghost var target := UncoverFrom(Links(), cols, w, activeConstraint);
      while activeConstraint >= w
        invariant Ordered(Links(), cols, w) && 0 <= activeConstraint < size
        invariant UncoverFrom(Links(), cols, w, activeConstraint) == target
        decreases activeConstraint
      {
        activeConstraint := UncoverAt(activeConstraint);
      }
    }

    /** The four removeConstraintsByCol calls of removeConstraintsByRow, in family order. */
    method CoverColumns(x: int, c0: int, c1: int, c2: int, c3: int)
      requires Valid() && Ordered(Links(), cols, w) && RowsApart(cols) && 0 <= x < |cols| / 4 && 4 * x + 3 < |cols|
      requires c0 == cols[4 * x] && c1 == cols[4 * x + 1] && c2 == cols[4 * x + 2] && c3 == cols[4 * x + 3]
      modifies above, below, colSum
      ensures Ordered(Links(), cols, w)
      ensures Links() == CoverRow(old(Links()), cols, w, x, 4)
    {
      ghost var L := Links();
      RemoveConstraintsByCol(c0);
      assert Links() == CoverRow(L, cols, w, x, 1);
      RemoveConstraintsByCol(c1);
      assert Links() == CoverRow(L, cols, w, x, 2);
      RemoveConstraintsByCol(c2);
      assert Links() == CoverRow(L, cols, w, x, 3);
      RemoveConstraintsByCol(c3);
    }

    /** The four resetConstraintsByCol calls of resetConstraintsByRow, in family order. */
    method UncoverColumns(x: int, c0: int, c1: int, c2: int, c3: int)
      requires Valid() && Ordered(Links(), cols, w) && RowsApart(cols) && 0 <= x < |cols| / 4 && 4 * x + 3 < |cols|
      requires c0 == cols[4 * x] && c1 == cols[4 * x + 1] && c2 == cols[4 * x + 2] && c3 == cols[4 * x + 3]
      modifies above, below, colSum
      ensures Ordered(Links(), cols, w)
      ensures Links() == UncoverRow(old(Links()), cols, w, x, 4)
    {
      ghost var L := Links();
      ResetConstraintsByCol(c0);
      assert Links() == UncoverRow(L, cols, w, x, 1);
      ResetConstraintsByCol(c1);
      assert Links() == UncoverRow(L, cols, w, x, 2);
      ResetConstraintsByCol(c2);
      assert Links() == UncoverRow(L, cols, w, x, 3);
      ResetConstraintsByCol(c3);
    }

    /** removeConstraintsByRow: clear the flags of row x's four columns, then remove each column. */
    method RemoveConstraintsByRow(x: int)
      requires Standard() && Ok() && 0 <= x < n * n * n
      modifies above, below, colSum, isActive
      ensures Ok() && x < |cols| / 4 && State() == RemoveRow(old(State()), cols, w, x)
    {
      var cellCol, rowCol, colCol, boxCol := ColumnsOfRow(x);
      isActive[cellCol] := false;
      isActive[rowCol] := false;
      isActive[colCol] := false;
      isActive[boxCol] := false;
      CoverColumns(x, cellCol, rowCol, colCol, boxCol);
    }

    /** resetConstraintsByRow: set the flags of row x's four columns, then reset each column. */
    method ResetConstraintsByRow(x: int)
      requires Standard() && Ok() && 0 <= x < n * n * n
      modifies above, below, colSum, isActive
      ensures Ok() && x < |cols| / 4 && State() == ResetRow(old(State()), cols, w, x)
    {
      var cellCol, rowCol, colCol, boxCol := ColumnsOfRow(x);
      isActive[cellCol] := true;
      isActive[rowCol] := true;
      isActive[colCol] := true;
      isActive[boxCol] := true;
      UncoverColumns(x, cellCol, rowCol, colCol, boxCol);
    }

    /** findMinCol: -1 for null, otherwise the first active column of least count. */
    method FindMinCol() returns (minCol: int)
      requires Shaped()
      ensures minCol == MinActive(colSum[..], isActive[..])
    {
      ghost var sums, active := colSum[..], isActive[..];
      minCol := -1;
      var col := 0;
      while col < w
        invariant 0 <= col <= w && -1 <= minCol < col
        invariant minCol == -1 <==> forall j :: 0 <= j < col ==> !active[j]
        invariant minCol != -1 ==> active[minCol] && forall j :: 0 <= j < col && active[j] ==> sums[minCol] <= sums[j] && (j < minCol ==> sums[minCol] < sums[j])
        invariant MinFrom(sums, active, col, minCol) == MinActive(sums, active)
      {
        if isActive[col] {
          if minCol == -1 || colSum[col] < colSum[minCol] {
            minCol := col;
          }
        }
        col := col + 1;
      }
    }

    /** The second part of initMatrix: for every filled cell in row-major order, removeConstraintsByRow on the row of its digit. */
    method InitGivens(grid: G.SudokuGrid)
      requires Standard() && Ok() && grid.Shaped() && grid.size == n
      requires Givens(grid.Values(), grid.digits, n)
      modifies above, below, colSum, isActive
      ensures Ok() && State() == DLInitFrom(old(State()), b, n, grid.Values(), grid.digits, 0, 0)
    {
      ghost var target := DLInitFrom(State(), b, n, grid.Values(), grid.digits, 0, 0);
      var gridDimensions := grid.GetSize();
      var row := 0;
      while row < gridDimensions
        invariant 0 <= row <= gridDimensions
        invariant Ok() && DLInitFrom(State(), b, n, grid.Values(), grid.digits, row, 0) == target
      {
        InitRow(grid, row);
        row := row + 1;
      }
    }

    /** The inner loop of initMatrix's givens, over the cells of one grid row. */
    method InitRow(grid: G.SudokuGrid, row: int)
      requires Standard() && Ok() && grid.Shaped() && grid.size == n && 0 <= row < n
      requires Givens(grid.Values(), grid.digits, n)
      modifies above, below, colSum, isActive
      ensures Ok()
      ensures DLInitFrom(State(), b, n, grid.Values(), grid.digits, row + 1, 0) ==
        DLInitFrom(old(State()), b, n, grid.Values(), grid.digits, row, 0)
    {
      ghost var v := grid.Values();
      ghost var target := DLInitFrom(State(), b, n, v, grid.digits, row, 0);
      var gridDimensions := grid.GetSize();
      var col := 0;
      while col < gridDimensions
        invariant 0 <= col <= gridDimensions
        invariant Ok() && DLInitFrom(State(), b, n, v, grid.digits, row, col) == target
      {
        InitCell(grid, row, col);
        col := col + 1;
      }
    }

    /** The inner loop's body at cell (row, col): when the cell is filled, removeConstraintsByRow on the row of its digit. */
    method InitCell(grid: G.SudokuGrid, row: int, col: int)
      requires Standard() && Ok() && grid.Shaped() && grid.size == n && 0 <= row < n && 0 <= col < n
      requires Givens(grid.Values(), grid.digits, n)
      modifies above, below, colSum, isActive
      ensures Ok()
      ensures DLInitFrom(State(), b, n, grid.Values(), grid.digits, row, col + 1) ==
        DLInitFrom(old(State()), b, n, grid.Values(), grid.digits, row, col)
    {
      ghost var s := State();
      var gridDimensions := grid.GetSize();
      var value := grid.GetCellValue(row, col);
      if value != 0 {
        var position := grid.GetDigitPosition(value);
        DecodeRowId(n, row, col, position);
        var rowNum := RowId(gridDimensions, row, col, position);
        RemoveConstraintsByRow(rowNum);
      }
    }
  }
}
