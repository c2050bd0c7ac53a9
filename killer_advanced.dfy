/**
 * KillerAdvancedSolver's matrix as mutable state.  Every Node object is an
 * address of the arena (column headers 0 .. w-1, then four Constraint
 * nodes per matrix row); the nodes' above, below and right fields and the
 * Constraints' colHeader field are the arrays of those names, the
 * MatrixCols' colSum and isActive fields are the arrays colSum and
 * isActive, and the MatrixRows' cageLock and constraintLock fields are the
 * arrays cageLock and constraintLock.  A MatrixRow's right pointer is its
 * cell Constraint, Node(w, x, 0).  Every operation is proved to leave the
 * state the functions of KillerAdvancedModel compute.
 */
module KillerAdvanced {
  import opened Layout
  import opened Rings
  import opened LinkedMatrix
  import opened KillerRules
  import opened KillerAdvancedModel
  import Alpha = Alphabet

  /** KillerAdvancedSolver's colHeaders, rowHeaders and nodes. */
  class KMatrix {
    const n: int
    const b: int
    /** The number of column headers, 4N^2. */
    const w: int
    /** The number of nodes, headers included. */
    const size: int
    const above: array<int>
    const below: array<int>
    const right: array<int>
    const colHeader: array<int>
    const colSum: array<int>
    const isActive: array<bool>
    const cageLock: array<bool>
    const constraintLock: array<bool>
    /** The column of every constraint node; fixed by the dimensions. */
    ghost const cols: seq<int>

    /** An order-n grid's matrix: the node columns Cols fixes. */
    ghost predicate Standard()
    {
      IsDims(b, n) && w == 4 * n * n && cols == Cols(b, n)
    }

    /** The node columns and the array sizes. */
    ghost predicate Shaped()
    {
      w > 0 && Columns(cols, w) && RowsApart(cols) && size == w + |cols| &&
      above.Length == size && below.Length == size && right.Length == size && colHeader.Length == size &&
      colSum.Length == w && isActive.Length == w && 4 * cageLock.Length == |cols| && 4 * constraintLock.Length == |cols| &&
      above != below && above != right && above != colHeader && above != colSum &&
      below != right && below != colHeader && below != colSum &&
      right != colHeader && right != colSum && colHeader != colSum &&
      isActive != cageLock && isActive != constraintLock && cageLock != constraintLock
    }

    /** Constraint node p points right to the next family of its row and holds its own column header. */
    ghost predicate Wired(p: int)
      requires Shaped() && w <= p < size
      reads right, colHeader
    {
      right[p] == Right(w, p) && colHeader[p] == cols[p - w]
    }

    /** Shaped, and every constraint node wired. */
    ghost predicate Valid()
      reads right, colHeader
    {
      Shaped() && forall p :: w <= p < size ==> Wired(p)
    }

    /** The vertical pointers and the counts as a value. */
    function Links(): Rings.Links
      reads above, below, colSum
    {
      Rings.Links(above[..], below[..], colSum[..])
    }

    /** The matrix as a value. */
    function State(): KState
      reads above, below, colSum, isActive, cageLock, constraintLock
    {
      KState(Links(), isActive[..], cageLock[..], constraintLock[..])
    }

    /** Valid, and the state is a well-formed arena. */
    ghost predicate Ok()
      reads above, below, right, colHeader, colSum, isActive, cageLock, constraintLock
    {
      Valid() && Fit(State(), cols, w)
    }

    /**
     * The first part of initMatrix: every header with count dimensions,
     * every row unlocked, then, row by row, four Constraint nodes joined
     * into their row and each added under its column's header.  It
     * leaves KillerAdvancedModel.Initial.
     */
    constructor (dimensions: int, boxSize: int)
      requires IsDims(boxSize, dimensions)
      ensures n == dimensions && b == boxSize && Standard() && Ok() && State() == Initial(b, n)
      ensures fresh(above) && fresh(below) && fresh(right) && fresh(colHeader) && fresh(colSum)
      ensures fresh(isActive) && fresh(cageLock) && fresh(constraintLock)
    {
      var matrixRows := dimensions * dimensions * dimensions;
      var matrixCols := 4 * dimensions * dimensions;
      n := dimensions;
      b := boxSize;
      w := matrixCols;
      size := matrixCols + 4 * matrixRows;
      cols := Cols(boxSize, dimensions);
      above := new int[matrixCols + 4 * matrixRows](p => p);
      below := new int[matrixCols + 4 * matrixRows](p => p);
      right := new int[matrixCols + 4 * matrixRows](p => p);
      colHeader := new int[matrixCols + 4 * matrixRows](p => p);
      colSum := new int[matrixCols](j => dimensions);
      isActive := new bool[matrixCols](j => true);
      cageLock := new bool[matrixRows](x => false);
      constraintLock := new bool[matrixRows](x => false);
      new;
      ColsApart(b, n);
      Wire();
    }

    /** The rows of the constructor, on the arena of unlinked nodes and untouched flags: they leave KillerAdvancedModel.Initial. */
    method Wire()
      requires Standard() && Shaped()
      requires forall p :: 0 <= p < size ==> above[p] == p && below[p] == p
      requires colSum[..] == seq(w, j => n) && isActive[..] == seq(w, j => true)
      requires cageLock[..] == seq(n * n * n, x => false) && constraintLock[..] == seq(n * n * n, x => false)
      modifies above, below, right, colHeader
      ensures Ok() && State() == Initial(b, n)
    {
      StagedStart(Links(), cols, w, n);
      LinkRows();
    }

    /** initMatrix's row loop: matrix row by row, four new nodes joined into their row, each added under its column's header. */
    method LinkRows()
      requires Standard() && Shaped() && Staged(Links(), Built(cols, w, n, 0), w)
      modifies above, below, right, colHeader
      ensures Valid() && Links() == Built(cols, w, n, |cols|)
    {
      var matrixRows := n * n * n;
      var row := 0;
      ghost var t := 0;
      while row < matrixRows
        invariant 0 <= row <= matrixRows && t == 4 * row
        invariant Staged(Links(), Built(cols, w, n, t), w + t)
        invariant forall p :: w <= p < w + t ==> Wired(p)
      {
        var cellCol, rowCol, colCol, boxCol := ColumnsOfRow(row);
        AddRow(row, cellCol, rowCol, colCol, boxCol, t);
        row := row + 1;
        t := t + 4;
      }
      assert t == |cols|;
      StagedAll(Links(), cols, w, n);
    }

    /** The row loop's body for matrix row x, whose four columns are given: its four nodes joined into their row, then each added under its column's header. */
    method AddRow(x: int, cellCol: int, rowCol: int, colCol: int, boxCol: int, ghost t: int)
      requires Shaped() && 0 <= x < |cols| / 4 && t == 4 * x
      requires cellCol == cols[4 * x] && rowCol == cols[4 * x + 1] && colCol == cols[4 * x + 2] && boxCol == cols[4 * x + 3]
      requires Staged(Links(), Built(cols, w, n, t), w + t)
      requires forall p :: w <= p < w + t ==> Wired(p)
      modifies above, below, right, colHeader
      ensures Staged(Links(), Built(cols, w, n, t + 4), w + (t + 4))
      ensures forall p :: w <= p < w + (t + 4) ==> Wired(p)
    {
      var cellConstraint, rowConstraint, colConstraint, boxConstraint := LinkRow(x, cellCol, rowCol, colCol, boxCol);
      forall p | w <= p < w + (t + 4)
        ensures Wired(p)
      {
        RowBound(w, x, p);
        if p < w + t {
          assert old(Wired(p));
        }
      }
      AddNodes(cellCol, rowCol, colCol, boxCol, cellConstraint, rowConstraint, colConstraint, boxConstraint, t);
    }

    /** The four addVertical calls of the row loop's body, for the nodes w + t, ..., w + t + 3. */
    method AddNodes(cellCol: int, rowCol: int, colCol: int, boxCol: int,
                    cellConstraint: int, rowConstraint: int, colConstraint: int, boxConstraint: int, ghost t: int)
      requires Shaped() && 0 <= t && t + 4 <= |cols|
      requires cellCol == cols[t] && rowCol == cols[t + 1] && colCol == cols[t + 2] && boxCol == cols[t + 3]
      requires cellConstraint == w + t && rowConstraint == w + t + 1 && colConstraint == w + t + 2 && boxConstraint == w + t + 3
      requires Staged(Links(), Built(cols, w, n, t), w + t)
      modifies above, below
      ensures Staged(Links(), Built(cols, w, n, t + 4), w + (t + 4))
    {
      AddNode(cellCol, cellConstraint, t);
      AddNode(rowCol, rowConstraint, t + 1);
      AddNode(colCol, colConstraint, t + 2);
      AddNode(boxCol, boxConstraint, t + 3);
    }

    /** cellConstraintByRow, rowConstraintByRow, colConstraintByRow and boxConstraintByRow of matrix row x: its four columns. */
    method ColumnsOfRow(x: int) returns (cellCol: int, rowCol: int, colCol: int, boxCol: int)
      requires Standard() && 0 <= x < n * n * n
      ensures 4 * x + 3 < |cols| && cellCol == cols[4 * x] && rowCol == cols[4 * x + 1]
      ensures colCol == cols[4 * x + 2] && boxCol == cols[4 * x + 3]
    {
      cellCol := CellColumn(n, x);
      rowCol := RowColumn(n, x);
      colCol := ColColumn(n, x);
      boxCol := BoxColumn(b, n, x);
      RowColumns(b, n, x);
    }

    /** The four new Constraint nodes of matrix row x, each holding its column header, joined right into their row's ring. */
    method LinkRow(x: int, cellCol: int, rowCol: int, colCol: int, boxCol: int)
      returns (cellConstraint: int, rowConstraint: int, colConstraint: int, boxConstraint: int)
      requires Shaped() && 0 <= x < |cols| / 4
      requires cellCol == cols[4 * x] && rowCol == cols[4 * x + 1] && colCol == cols[4 * x + 2] && boxCol == cols[4 * x + 3]
      modifies right, colHeader
      ensures cellConstraint == Node(w, x, 0) && rowConstraint == Node(w, x, 1)
      ensures colConstraint == Node(w, x, 2) && boxConstraint == Node(w, x, 3)
      ensures forall p :: w <= p < size && RowOf(w, p) == x ==> Wired(p)
      ensures forall p :: 0 <= p < size && RowOf(w, p) != x ==> right[p] == old(right[p]) && colHeader[p] == old(colHeader[p])
    {
      cellConstraint, rowConstraint := Node(w, x, 0), Node(w, x, 1);
      colConstraint, boxConstraint := Node(w, x, 2), Node(w, x, 3);
      NodeParts(w, x, 0);
      NodeParts(w, x, 1);
      NodeParts(w, x, 2);
      NodeParts(w, x, 3);
      colHeader[cellConstraint] := cellCol;
      colHeader[rowConstraint] := rowCol;
      colHeader[colConstraint] := colCol;
      colHeader[boxConstraint] := boxCol;
      right[cellConstraint] := rowConstraint;
      right[rowConstraint] := colConstraint;
      right[colConstraint] := boxConstraint;
      right[boxConstraint] := cellConstraint;
      forall p | w <= p < size && RowOf(w, p) == x
        ensures Wired(p)
      {
        NodeOfRow(w, x, p);
      }
    }

    /** colHeaders[h].addVertical(p) in the row loop, p = w + t the next node to add: the loop's next step. */
    method AddNode(h: int, p: int, ghost t: int)
      requires Shaped() && 0 <= t < |cols| && p == w + t && h == cols[t]
      requires Staged(Links(), Built(cols, w, n, t), w + t)
      modifies above, below
      ensures Staged(Links(), Built(cols, w, n, t + 1), w + (t + 1))
    {
      StagedStep(Links(), cols, w, n, t);
      AddVertical(h, p);
    }

    /** addVertical of header h: node p goes right below h. */
    method AddVertical(h: int, p: int)
      requires Shaped() && 0 <= h < size && 0 <= p < size && h != p && 0 <= below[h] < size
      modifies above, below
      ensures Links() == Rings.AddVertical(old(Links()), h, p)
    {
      above[p] := h;
      below[p] := below[h];
      above[below[h]] := p;
      below[h] := p;
    }

    /** detachNode: the nodes above and below p are joined, and p's column header loses one from its count. */
    method DetachNode(p: int)
      requires Valid() && Ordered(Links(), cols, w) && IsNode(cols, w, p)
      modifies above, below, colSum
      ensures Links() == Drop(old(Links()), cols, w, p)
    {
      ghost var L := Links();
      assert Hooked(L, cols, w, p) && Wired(p);
      below[above[p]] := below[p];
      above[below[p]] := above[p];
      colSum[colHeader[p]] := colSum[colHeader[p]] - 1;
      DropIs(L, above[..], below[..], colSum[..], cols, w, p);
    }

    /** reattachNode: the nodes p still points to point back at p, and p's column header gains one on its count. */
    method ReattachNode(p: int)
      requires Valid() && Ordered(Links(), cols, w) && IsNode(cols, w, p)
      modifies above, below, colSum
      ensures Links() == Lift(old(Links()), cols, w, p)
    {
      ghost var L := Links();
      assert Hooked(L, cols, w, p) && Wired(p);
      below[above[p]] := p;
      above[below[p]] := p;
      colSum[colHeader[p]] := colSum[colHeader[p]] + 1;
      LiftIs(L, above[..], below[..], colSum[..], cols, w, p);
    }

    /** The inner loop's body at node p, k steps right of q: detach p, then on to p's right neighbour. */
    method DropAt(q: int, p: int, ghost k: int) returns (next: int)
      requires Valid() && Ordered(Links(), cols, w) && IsNode(cols, w, q)
      requires 0 <= k < 3 && p == Round(w, q, k + 1) && IsNode(cols, w, p)
      modifies above, below, colSum
      ensures Ordered(Links(), cols, w) && next == Round(w, q, k + 2) && IsNode(cols, w, next) && (next == q <==> k == 2)
      ensures DropSpan(Links(), cols, w, next, 2 - k) == DropSpan(old(Links()), cols, w, p, 3 - k)
    {
      DropSpanStep(Links(), cols, w, p, 3 - k);
      DetachNode(p);
      assert Wired(p);
      next := right[p];
      RoundTrip(cols, w, q, k + 2);
    }

    /** The reset's inner loop body at node p, k steps right of q: reattach p, then on to p's right neighbour. */
    method LiftAt(q: int, p: int, ghost k: int) returns (next: int)
      requires Valid() && Ordered(Links(), cols, w) && IsNode(cols, w, q)
      requires 0 <= k < 3 && p == Round(w, q, k + 1) && IsNode(cols, w, p)
      modifies above, below, colSum
      ensures Ordered(Links(), cols, w) && next == Round(w, q, k + 2) && IsNode(cols, w, next) && (next == q <==> k == 2)
      ensures LiftSpan(Links(), cols, w, next, 2 - k) == LiftSpan(old(Links()), cols, w, p, 3 - k)
    {
      LiftSpanStep(Links(), cols, w, p, 3 - k);
      ReattachNode(p);
      assert Wired(p);
      next := right[p];
      RoundTrip(cols, w, q, k + 2);
    }

    /** removeConstraintsByCol's inner loop at node q: detach the three other nodes of q's row, left to right. */
    method DetachOthers(q: int)
      requires Valid() && Ordered(Links(), cols, w) && IsNode(cols, w, q)
      modifies above, below, colSum
      ensures IsNode(cols, w, Right(w, q)) && Links() == DropSpan(old(Links()), cols, w, Right(w, q), 3)
    {
      RightNode(cols, w, q);
      assert Wired(q);
      var tempConstraint := right[q];
      ghost var k := 0;
      RoundTrip(cols, w, q, 1);
      while tempConstraint != q
        invariant 0 <= k <= 3 && tempConstraint == Round(w, q, k + 1) && IsNode(cols, w, tempConstraint)
        invariant tempConstraint == q <==> k == 3
        invariant Ordered(Links(), cols, w)
        invariant DropSpan(Links(), cols, w, tempConstraint, 3 - k) == DropSpan(old(Links()), cols, w, Right(w, q), 3)
        decreases 3 - k
      {
        tempConstraint := DropAt(q, tempConstraint, k);
        k := k + 1;
      }
    }

    /** resetConstraintsByCol's inner loop at node q: reattach the three other nodes of q's row, left to right. */
    method ReattachOthers(q: int)
      requires Valid() && Ordered(Links(), cols, w) && IsNode(cols, w, q)
      modifies above, below, colSum
      ensures IsNode(cols, w, Right(w, q)) && Links() == LiftSpan(old(Links()), cols, w, Right(w, q), 3)
    {
      RightNode(cols, w, q);
      assert Wired(q);
      var tempConstraint := right[q];
      ghost var k := 0;
      RoundTrip(cols, w, q, 1);
      while tempConstraint != q
        invariant 0 <= k <= 3 && tempConstraint == Round(w, q, k + 1) && IsNode(cols, w, tempConstraint)
        invariant tempConstraint == q <==> k == 3
        invariant Ordered(Links(), cols, w)
        invariant LiftSpan(Links(), cols, w, tempConstraint, 3 - k) == LiftSpan(old(Links()), cols, w, Right(w, q), 3)
        decreases 3 - k
      {
        tempConstraint := LiftAt(q, tempConstraint, k);
        k := k + 1;
      }
    }

    /** One step of removeConstraintsByCol's outer loop at node q: unless q's row is cage-locked, detach its other nodes and lock it; then on to the node below q. */
    method CoverAt(q: int) returns (next: int)
      requires Ok() && IsNode(cols, w, q)
      modifies above, below, colSum, constraintLock
      ensures Ok() && 0 <= next < q
      ensures CoverFrom(State(), cols, w, next) == CoverFrom(old(State()), cols, w, q)
    {
      ghost var s := State();
      var x := RowOf(w, q);
      RowInRange(w, q, cageLock.Length);
      if !cageLock[x] {
        DetachOthers(q);
        constraintLock[x] := true;
      }
      assert State() == CoverStep(s, cols, w, q);
      next := below[q];
    }

    /** removeConstraintsByCol: every row met going down column h that is not cage-locked detaches its other three nodes and becomes constraint-locked. */
    method RemoveConstraintsByCol(h: int)
      requires Ok() && 0 <= h < w
      modifies above, below, colSum, constraintLock
      ensures Ok() && State() == Cover(old(State()), cols, w, h)
    {
      assert Hooked(Links(), cols, w, h);
      var activeConstraint := below[h];
      ghost var target := CoverFrom(State(), cols, w, activeConstraint);
      while activeConstraint >= w
        invariant Ok() && 0 <= activeConstraint < size
        invariant CoverFrom(State(), cols, w, activeConstraint) == target
        decreases activeConstraint
      {
        activeConstraint := CoverAt(activeConstraint);
      }
    }

    /** One step of resetConstraintsByCol's outer loop at node q: if q's row is constraint-locked, reattach its other nodes and unlock it; then on to the node below q. */
    method UncoverAt(q: int) returns (next: int)
      requires Ok() && IsNode(cols, w, q)
      modifies above, below, colSum, constraintLock
      ensures Ok() && 0 <= next < q
      ensures UncoverFrom(State(), cols, w, next) == UncoverFrom(old(State()), cols, w, q)
    {
      ghost var s := State();
      var x := RowOf(w, q);
      RowInRange(w, q, constraintLock.Length);
      if constraintLock[x] {
        ReattachOthers(q);
        constraintLock[x] := false;
      }
      assert State() == UncoverStep(s, cols, w, q);
      next := below[q];
    }

    /** resetConstraintsByCol: every constraint-locked row met going down column h reattaches its other three nodes and is unlocked. */
    method ResetConstraintsByCol(h: int)
      requires Ok() && 0 <= h < w
      modifies above, below, colSum, constraintLock
      ensures Ok() && State() == Uncover(old(State()), cols, w, h)
    {
      assert Hooked(Links(), cols, w, h);
      var activeConstraint := below[h];
      ghost var target := UncoverFrom(State(), cols, w, activeConstraint);
      while activeConstraint >= w
        invariant Ok() && 0 <= activeConstraint < size
        invariant UncoverFrom(State(), cols, w, activeConstraint) == target
        decreases activeConstraint
      {
        activeConstraint := UncoverAt(activeConstraint);
      }
    }

    /** The four removeConstraintsByCol calls of removeConstraintsByRow, in family order. */
    method CoverColumns(x: int, c0: int, c1: int, c2: int, c3: int)
      requires Ok() && 0 <= x < |cols| / 4
      requires c0 == cols[4 * x] && c1 == cols[4 * x + 1] && c2 == cols[4 * x + 2] && c3 == cols[4 * x + 3]
      modifies above, below, colSum, constraintLock
      ensures Ok() && State() == CoverRow(old(State()), cols, w, x, 4)
    {
      ghost var s := State();
      RemoveConstraintsByCol(c0);
      assert State() == CoverRow(s, cols, w, x, 1);
      RemoveConstraintsByCol(c1);
      assert State() == CoverRow(s, cols, w, x, 2);
      RemoveConstraintsByCol(c2);
      assert State() == CoverRow(s, cols, w, x, 3);
      RemoveConstraintsByCol(c3);
    }

    /** The four resetConstraintsByCol calls of resetConstraintsByRow, in family order. */
    method UncoverColumns(x: int, c0: int, c1: int, c2: int, c3: int)
      requires Ok() && 0 <= x < |cols| / 4
      requires c0 == cols[4 * x] && c1 == cols[4 * x + 1] && c2 == cols[4 * x + 2] && c3 == cols[4 * x + 3]
      modifies above, below, colSum, constraintLock
      ensures Ok() && State() == UncoverRow(old(State()), cols, w, x, 4)
    {
      ghost var s := State();
      ResetConstraintsByCol(c0);
      assert State() == UncoverRow(s, cols, w, x, 1);
      ResetConstraintsByCol(c1);
      assert State() == UncoverRow(s, cols, w, x, 2);
      ResetConstraintsByCol(c2);
      assert State() == UncoverRow(s, cols, w, x, 3);
      ResetConstraintsByCol(c3);
    }

    /** removeConstraintsByRow: clear the flags of row x's four columns, then remove each column. */
    method RemoveConstraintsByRow(x: int)
      requires Standard() && Ok() && 0 <= x < n * n * n
      modifies above, below, colSum, isActive, constraintLock
      ensures Ok() && x < |cols| / 4 && State() == RemoveRow(old(State()), cols, w, x)
    {
      var cellCol, rowCol, colCol, boxCol := ColumnsOfRow(x);
      isActive[cellCol] := false;
      isActive[rowCol] := false;
      isActive[colCol] := false;
      isActive[boxCol] := false;
      CoverColumns(x, cellCol, rowCol, colCol, boxCol);
    }

    /** resetConstraintsByRow: set the flags of row x's four columns, then reset each column. */
    method ResetConstraintsByRow(x: int)
      requires Standard() && Ok() && 0 <= x < n * n * n
      modifies above, below, colSum, isActive, constraintLock
      ensures Ok() && x < |cols| / 4 && State() == ResetRow(old(State()), cols, w, x)
    {
      var cellCol, rowCol, colCol, boxCol := ColumnsOfRow(x);
      isActive[cellCol] := true;
      isActive[rowCol] := true;
      isActive[colCol] := true;
      isActive[boxCol] := true;
      UncoverColumns(x, cellCol, rowCol, colCol, boxCol);
    }

    /** findMinCol: -1 for null, otherwise the first active column of least count. */
    method FindMinCol() returns (minCol: int)
      requires Shaped()
      ensures minCol == MinActive(colSum[..], isActive[..])
    {
      ghost var sums, active := colSum[..], isActive[..];
      minCol := -1;
      var col := 0;
      while col < w
        invariant 0 <= col <= w && -1 <= minCol < col
        invariant minCol == -1 <==> forall j :: 0 <= j < col ==> !active[j]
        invariant minCol != -1 ==> active[minCol] && forall j :: 0 <= j < col && active[j] ==> sums[minCol] <= sums[j] && (j < minCol ==> sums[minCol] < sums[j])
        invariant MinFrom(sums, active, col, minCol) == MinActive(sums, active)
      {
        if isActive[col] {
          if minCol == -1 || colSum[col] < colSum[minCol] {
            minCol := col;
          }
        }
        col := col + 1;
      }
    }

    /** The four detachNode calls from a row header: its cell node, then right three times. */
    method DetachFour(x: int)
      requires Valid() && Ordered(Links(), cols, w) && 0 <= x < |cols| / 4
      modifies above, below, colSum
      ensures Ordered(Links(), cols, w) && Links() == DropRow(old(Links()), cols, w, x)
    {
      var constraint := Node(w, x, 0);
      RoundParts(cols, w, Node(w, x, 0), 0);
      var i := 0;
      while i < 4
        invariant 0 <= i <= 4 && constraint == Round(w, Node(w, x, 0), i) && IsNode(cols, w, constraint)
        invariant Ordered(Links(), cols, w)
        invariant DropSpan(Links(), cols, w, constraint, 4 - i) == DropSpan(old(Links()), cols, w, Node(w, x, 0), 4)
      {
        DropSpanStep(Links(), cols, w, constraint, 4 - i);
        DetachNode(constraint);
        assert Wired(constraint);
        constraint := right[constraint];
        RoundParts(cols, w, Node(w, x, 0), i + 1);
        i := i + 1;
      }
    }

    /** The four reattachNode calls from a row header: its cell node, then right three times. */
    method ReattachFour(x: int)
      requires Valid() && Ordered(Links(), cols, w) && 0 <= x < |cols| / 4
      modifies above, below, colSum
      ensures Ordered(Links(), cols, w) && Links() == LiftRow(old(Links()), cols, w, x)
    {
      var constraint := Node(w, x, 0);
      RoundParts(cols, w, Node(w, x, 0), 0);
      var i := 0;
      while i < 4
        invariant 0 <= i <= 4 && constraint == Round(w, Node(w, x, 0), i) && IsNode(cols, w, constraint)
        invariant Ordered(Links(), cols, w)
        invariant LiftSpan(Links(), cols, w, constraint, 4 - i) == LiftSpan(old(Links()), cols, w, Node(w, x, 0), 4)
      {
        LiftSpanStep(Links(), cols, w, constraint, 4 - i);
        ReattachNode(constraint);
        assert Wired(constraint);
        constraint := right[constraint];
        RoundParts(cols, w, Node(w, x, 0), i + 1);
        i := i + 1;
      }
    }

    /**
     * deleteRowsByCage's body at row x, whose digit is allowed or not: a
     * constraint-locked row is left alone; a cage-locked row of an allowed
     * digit is unlocked and reattached; an unlocked row of a digit not
     * allowed is locked and detached.
     */
    method SyncRowAt(x: int, allowed: bool)
      requires Ok() && 0 <= x < cageLock.Length
      modifies above, below, colSum, cageLock
      ensures Ok() && State() == SyncRow(old(State()), cols, w, x, allowed)
    {
      if !constraintLock[x] {
        if cageLock[x] && allowed {
          cageLock[x] := false;
          ReattachFour(x);
        }
        if !cageLock[x] && !allowed {
          cageLock[x] := true;
          DetachFour(x);
        }
      }
    }

    /**
     * deleteRowsByCage(cage, forbiddenRow), with the digits allowed
     * findCombinations left the cage: for every digit, for every cell of
     * the cage, the row of that cell and digit is re-synced unless it is
     * forbiddenRow.
     */
    method DeleteRowsByCage(digits: seq<int>, cells: seq<Coord>, allowed: set<int>, forbiddenRow: int)
      requires Standard() && Ok() && |digits| == n && InGrid(cells, n)
      modifies above, below, colSum, cageLock
      ensures Ok() && State() == Sync(old(State()), cols, w, n, cells, digits, allowed, forbiddenRow)
    {
      ghost var target := Sync(State(), cols, w, n, cells, digits, allowed, forbiddenRow);
      var i := 0;
      while i < |digits|
        invariant 0 <= i <= n && Ok()
        invariant SyncDigits(State(), cols, w, n, cells, digits, allowed, forbiddenRow, i) == target
      {
        SyncCellsOf(digits, cells, allowed, forbiddenRow, i);
        i := i + 1;
      }
    }

    /** deleteRowsByCage's inner loop, over the cage's cells for the i-th digit. */
    method SyncCellsOf(digits: seq<int>, cells: seq<Coord>, allowed: set<int>, forbiddenRow: int, i: int)
      requires Standard() && Ok() && |digits| == n && InGrid(cells, n) && 0 <= i < n
      modifies above, below, colSum, cageLock
      ensures Ok() && State() == SyncCells(old(State()), cols, w, n, cells, digits, allowed, forbiddenRow, i, 0)
    {
      ghost var target := SyncCells(State(), cols, w, n, cells, digits, allowed, forbiddenRow, i, 0);
      var j := 0;
      while j < |cells|
        invariant 0 <= j <= |cells| && Ok()
        invariant SyncCells(State(), cols, w, n, cells, digits, allowed, forbiddenRow, i, j) == target
      {
        SyncCellAt(digits, cells, allowed, forbiddenRow, i, j);
        j := j + 1;
      }
    }

    /** The inner loop's body at the cage's j-th cell: the row of that cell and the i-th digit, unless it is the forbidden row. */
    method SyncCellAt(digits: seq<int>, cells: seq<Coord>, allowed: set<int>, forbiddenRow: int, i: int, j: int)
      requires Standard() && Ok() && |digits| == n && InGrid(cells, n) && 0 <= i < n && 0 <= j < |cells|
      modifies above, below, colSum, cageLock
      ensures Ok() && SyncCells(State(), cols, w, n, cells, digits, allowed, forbiddenRow, i, j + 1) == SyncCells(old(State()), cols, w, n, cells, digits, allowed, forbiddenRow, i, j)
    {
      var xRowNum := cells[j].0 * n * n + cells[j].1 * n + Alpha.DigitPosition(digits, digits[i]);
      assert xRowNum == CageRow(n, cells[j], digits, i);
      if xRowNum != forbiddenRow {
        SyncRowAt(xRowNum, digits[i] in allowed);
      }
    }

    /** initMatrix's cage pass at row x: detach its four nodes, then set its cage lock. */
    method LockRowAt(x: int)
      requires Ok() && 0 <= x < cageLock.Length
      modifies above, below, colSum, cageLock
      ensures Ok() && State() == LockRow(old(State()), cols, w, x)
    {
      DetachFour(x);
      cageLock[x] := true;
    }

    /**
     * The cage pass of initMatrix: for every cage, every digit the cage's
     * possible digits (initial) leave out, every cell of the cage, the row
     * of that cell and digit is detached and cage-locked.
     */
    method InitCages(digits: seq<int>, cages: seq<CageSpec>, initial: seq<set<int>>)
      requires Standard() && Ok() && |digits| == n && CagesInGrid(cages, n) && |initial| == |cages|
      modifies above, below, colSum, cageLock
      ensures Ok() && State() == KillerAdvancedModel.InitCages(old(State()), cols, w, n, cages, initial, digits, 0)
    {
      ghost var target := KillerAdvancedModel.InitCages(State(), cols, w, n, cages, initial, digits, 0);
      var k := 0;
      while k < |cages|
        invariant 0 <= k <= |cages| && Ok()
        invariant KillerAdvancedModel.InitCages(State(), cols, w, n, cages, initial, digits, k) == target
      {
        InitCage(digits, cages[k].cells, initial[k]);
        k := k + 1;
      }
    }

    /** The cage pass for one cage with possible digits possible. */
    method InitCage(digits: seq<int>, cells: seq<Coord>, possible: set<int>)
      requires Standard() && Ok() && |digits| == n && InGrid(cells, n)
      modifies above, below, colSum, cageLock
      ensures Ok() && State() == InitDigits(old(State()), cols, w, n, cells, digits, possible, 0)
    {
      ghost var target := InitDigits(State(), cols, w, n, cells, digits, possible, 0);
      var i := 0;
      while i < |digits|
        invariant 0 <= i <= n && Ok()
        invariant InitDigits(State(), cols, w, n, cells, digits, possible, i) == target
      {
        if digits[i] !in possible {
          LockCells(digits, cells, i);
        }
        i := i + 1;
      }
    }

    /** The cage pass's inner loop, over the cage's cells for the i-th digit. */
    method LockCells(digits: seq<int>, cells: seq<Coord>, i: int)
      requires Standard() && Ok() && |digits| == n && InGrid(cells, n) && 0 <= i < n
      modifies above, below, colSum, cageLock
      ensures Ok() && State() == InitCells(old(State()), cols, w, n, cells, digits, i, 0)
    {
      ghost var target := InitCells(State(), cols, w, n, cells, digits, i, 0);
      var j := 0;
      while j < |cells|
        invariant 0 <= j <= |cells| && Ok()
        invariant InitCells(State(), cols, w, n, cells, digits, i, j) == target
      {
        LockCellAt(digits, cells, i, j);
        j := j + 1;
      }
    }

    /** The inner loop's body at the cage's j-th cell: the row of that cell and the i-th digit. */
    method LockCellAt(digits: seq<int>, cells: seq<Coord>, i: int, j: int)
      requires Standard() && Ok() && |digits| == n && InGrid(cells, n) && 0 <= i < n && 0 <= j < |cells|
      modifies above, below, colSum, cageLock
      ensures Ok() && InitCells(State(), cols, w, n, cells, digits, i, j + 1) == InitCells(old(State()), cols, w, n, cells, digits, i, j)
    {
      var xRowNum := cells[j].0 * n * n + cells[j].1 * n + Alpha.DigitPosition(digits, digits[i]);
      assert xRowNum == CageRow(n, cells[j], digits, i);
      LockRowAt(xRowNum);
    }
  }
}
