# Sudoku and Killer Sudoku solvers, modelled in Dafny

This project models the solvers of a small Java Sudoku program, together with
the grid operations they call. A grid is an n-by-n table, n = b², over an
alphabet of n distinct nonzero digits. The value 0 stands for an empty cell.

- **Backtracking** (`BackTrackingSolver`, `KillerBackTrackingSolver`): fill
  the first empty cell in row-major order with each digit in turn. After each
  write, call the grid's `validate` and `checkComplete`, and recurse.
- **Algorithm X** (`AlgorXSolver`): the exact-cover matrix is a boolean table
  with column counts and column-inclusion flags. `removeConstraints` and
  `resetConstraintsByRow` clear and set entries row by row.
- **Dancing Links** (`DancingLinksSolver`): the same exact-cover matrix as
  circular doubly linked lists of `Constraint` nodes under `MatrixCol`
  headers. It uses `detachNode`/`reatachNode` and column counts.
- **Killer Advanced** (`KillerAdvancedSolver`): Dancing Links with two lock
  flags per matrix row. A cage lock marks a row whose digit the cage's
  combinations exclude; a constraint lock marks a row detached by a column
  removal. `deleteRowsByCage` re-syncs the cage locks after every placement.
- **Killer grid** (`KillerSudokuGrid` and its `Cage`): `validate`,
  `checkComplete`, `toString`, `getCellValue`, `setCell`,
  `getDigitPosition`, the cage's `isValid`/`isComplete` and the search
  `findCominations`.

Matrix row `r·n² + c·n + d` stands for digit position `d` in cell `(r, c)`.
Its four columns are one in each band of `n²` columns, in the order cell,
row, column, box (module `Layout`). The linked structures live in an arena
(module `Rings`):
- node ids `0 .. 4n²−1` are the column headers;
- the constraint node of family `k` of matrix row `x` is `4n² + 4x + k`;
- `above`, `below` and `right` are arrays of node ids.

The imperative classes (`AlgorX.AlgXMatrix`, `DancingLinks.DLMatrix`,
`KillerAdvanced.KMatrix`, `KillerGrid.KillerSudokuGrid`, `StdGrid.SudokuGrid`)
keep the source's fields and loops. Each solver method is proved equal to a
pure search function: `XSearch`, `DLSearch`, `KSearch` or `Search`. The
properties of the solvers are proved about those functions.

Modules:
- `Layout`, `Alphabet`, `Cells`, `Rings`, `LinkedMatrix`: index arithmetic,
  digit positions, grid values, and the arena and its walks.
- `AlgorXModel`, `AlgorXSearch`, `AlgorXCover`, `AlgorX`, `AlgorXSolver`:
  Algorithm X.
- `DancingLinksModel`, `DancingLinks`, `DancingLinksSolver`: Dancing Links.
- `KillerAdvancedModel`, `KillerAdvanced`, `KillerAdvancedSolver`: Killer
  Advanced.
- `Relink`, `RingFilter`, `KillerAdvancedUndo`, `KillerAdvancedReset`: why
  Killer Advanced's resetConstraintsByRow undoes removeConstraintsByRow.
  `Relink` shows that detaching distinct nodes of doubly linked lists and
  then reattaching them in the same order restores every pointer and count.
  `RingFilter` follows each column's list as nodes are detached.
  `KillerAdvancedUndo` writes each column walk as one such run of detaches
  (or reattaches). `KillerAdvancedReset` names the nodes the four walks of
  a removal pick and shows that the four walks of the reset reattach
  exactly those nodes, in the same order.
- `KillerRules`, `KillerGrid`, `Combinations`: the Killer grid.
- `Backtracking`, `StdGrid`, `StdBacktracking`, `KillerBacktracking`: the two
  backtracking solvers.

## Model

| member | source | states |
|---|---|---|
| Alphabet.DigitPosition | grid/KillerSudokuGrid.java:240-249 | getDigitPosition: the least position holding the value, or -1 exactly when the value is not a digit of the alphabet |
| Alphabet.PositionOfDigit | grid/KillerSudokuGrid.java:240-249 | with a distinct alphabet, the position of the digit at p is p, so positions and digits are inverse |
| Cells.Place | grid/KillerSudokuGrid.java:231-238 | writing a cell changes that cell and no other |
| Cells.PlaceTwice | grid/KillerSudokuGrid.java:231-238 | setting a cell twice keeps only the second value |
| Cells.PlaceSame | grid/KillerSudokuGrid.java:231-238 | setting a cell to the value it holds changes nothing |
| Cells.Write | solver/AlgorXSolver.java:46 | writing matrix row x's digit fills exactly x's cell with x's digit |
| Cells.Erase | solver/AlgorXSolver.java:51 | undoing matrix row x empties exactly x's cell |
| Cells.EmptyCountPlace | solver/BackTrackingSolver.java:27-29 | filling one empty cell lowers the number of empty cells by one, the measure the backtracking recursion descends on |
| Cells.EmptyCountZero | solver/BackTrackingSolver.java:23-27 | a table has no empty cell exactly when its empty count is 0 |
| Layout.RowId | solver/AlgorXSolver.java:128-129 | definition: the matrix row of digit position d in cell (r, c); see Layout.DecodeRowId and Layout.EncodeDecode |
| Layout.GridRow | solver/DancingLinksSolver.java:347-349 | definition: getGridRow; see Layout.DecodeRowId and Layout.EncodeDecode |
| Layout.GridCol | solver/DancingLinksSolver.java:351-353 | definition: getGridCol; see Layout.DecodeRowId and Layout.EncodeDecode |
| Layout.GridDigit | solver/DancingLinksSolver.java:355-357 | definition: getGridDigit; see Layout.DecodeRowId and Layout.EncodeDecode |
| Layout.CellColumn | solver/AlgorXSolver.java:275-277 | definition: cellConstraintByRow; see Layout.ColumnsOfRowId and Layout.CoversIffMember |
| Layout.RowColumn | solver/AlgorXSolver.java:279-282 | definition: rowConstraintByRow; see Layout.ColumnsOfRowId and Layout.CoversIffMember |
| Layout.ColColumn | solver/AlgorXSolver.java:284-286 | definition: colConstraintByRow; see Layout.ColumnsOfRowId and Layout.CoversIffMember |
| Layout.BoxColumn | solver/AlgorXSolver.java:288-294 | definition: boxConstraintByRow; see Layout.BoxColumnOfRowId and Layout.ColumnsOfRowId |
| Layout.RowIdShape | solver/AlgorXSolver.java:128-129 | the row number init computes for a cell and digit position is r·n² + c·n + d, below n³ |
| Layout.DecodeRowId | solver/AlgorXSolver.java:40-42 | a matrix row of an in-range cell and digit lies in [0, n³) and getGridRow/getGridCol/digit decode it back |
| Layout.EncodeDecode | solver/DancingLinksSolver.java:347-357 | every matrix row below n³ is the row of its decoded cell and digit, so encoding and decoding are inverse |
| Layout.BoxColumnOfRowId | solver/AlgorXSolver.java:288-294 | the box constraint index computed with powers of b is 3n² + n·(b·(r/b) + c/b) + d |
| Layout.ColumnsOfRowId | solver/AlgorXSolver.java:275-294 | the four columns of a row's cell, row, column and box constraints, each in its own band of n² |
| Layout.ColumnBands | solver/AlgorXSolver.java:275-294 | each family column of an in-range row lies in the family's band of [0, 4n²) |
| Layout.MemberRowComplete | solver/AlgorXSolver.java:275-294 | every in-range row is a member row of each of its four columns |
| Layout.CoversIffMember | solver/AlgorXSolver.java:275-294 | row x covers column j exactly when x is one of j's n member rows (both directions) |
| Layout.MemberRowInjective | solver/AlgorXSolver.java:275-294 | distinct member indices of a column give distinct rows |
| Layout.ColumnHasNRows | solver/AlgorXSolver.java:100-103 | every column is covered by exactly n matrix rows, the count the constructor gives it |
| Rings.Detach | solver/DancingLinksSolver.java:263-266 | detachNode joins the nodes above and below p and leaves p's own pointers |
| Rings.Reattach | solver/DancingLinksSolver.java:268-271 | reatachNode makes the nodes p points to point back at p |
| Rings.DetachOrdered | solver/DancingLinksSolver.java:263-266 | detaching a constraint node keeps every column's list hooked and ordered |
| Rings.ReattachOrdered | solver/DancingLinksSolver.java:268-271 | reattaching a constraint node keeps every column's list hooked and ordered |
| Rings.ReattachDetach | solver/DancingLinksSolver.java:263-271 | a reattach right after a detach of a linked node restores every pointer |
| Rings.RingDetach | solver/DancingLinksSolver.java:263-266 | detaching node i of a column's list removes exactly that node and leaves every other column's list |
| Rings.RingOther | solver/DancingLinksSolver.java:263-271 | a column's list is unchanged by pointer changes at nodes of other columns |
| Rings.AddVertical | solver/DancingLinksSolver.java:329-335 | addVertical puts p directly below header h |
| Rings.RingAdd | solver/DancingLinksSolver.java:329-335 | addVertical of a new node puts it at the head of its column's list, keeps the arena ordered and leaves the other lists |
| Rings.RightNode | solver/DancingLinksSolver.java:244-308 | the right pointer of a constraint node is the next family of the same matrix row |
| Rings.Drop | solver/KillerAdvancedSolver.java:435-442 | detachNode with the count decrement: the pointers as Detach and one off the node's column count only |
| Rings.Lift | solver/KillerAdvancedSolver.java:444-451 | reattachNode with the count increment: the pointers as Reattach and one more on the node's column count only |
| Rings.DropLift | solver/KillerAdvancedSolver.java:435-451 | a lift right after a drop of a linked node restores pointers and counts |
| Rings.DropSpanSum | solver/DancingLinksSolver.java:167-183 | detaching a run of a row's nodes takes one off a column's count per node of the run in it, and changes no other count |
| Rings.LiftSpanSum | solver/DancingLinksSolver.java:185-201 | reattaching a run of a row's nodes adds one per node of the run to that node's column count |
| Rings.WalkFrom | solver/DancingLinksSolver.java:167-183 | the constraint nodes met walking down from q until a header comes round, each below the one before |
| Rings.RingWalk | solver/DancingLinksSolver.java:167-183 | walking down from header h lists exactly that column's list |
| LinkedMatrix.Cols | solver/DancingLinksSolver.java:38-65 | the column of every constraint node initMatrix creates, family k in band k |
| LinkedMatrix.ColsFacts | solver/DancingLinksSolver.java:38-65 | as many columns as constraint nodes, each a header, node w + 4x + k in family k's column of row x |
| LinkedMatrix.ColumnNodes | solver/DancingLinksSolver.java:61-64 | the nodes of one column among the first t built, newest first |
| LinkedMatrix.Blank | solver/DancingLinksSolver.java:32-36 | before the row loop every header is alone in its list with count n |
| LinkedMatrix.Built | solver/DancingLinksSolver.java:38-65 | after t nodes are added, each column's list holds exactly its nodes among them, newest first |
| LinkedMatrix.BuiltStep | solver/DancingLinksSolver.java:61-64 | one addVertical extends its column's list by the new node and leaves the others |
| LinkedMatrix.RowOfGrid | solver/DancingLinksSolver.java:38-65 | a matrix row's four nodes lie in four different columns, and it has a node in a column exactly when it covers it |
| LinkedMatrix.ColumnRows | solver/DancingLinksSolver.java:38-65 | once the rows below x are built, a column lists exactly the rows below x covering it, in decreasing order |
| LinkedMatrix.ColumnHoldsN | solver/DancingLinksSolver.java:38-65 | after initMatrix's row loop every column lists its n covering rows |
| LinkedMatrix.ColsApart | solver/DancingLinksSolver.java:38-65 | no two nodes of one matrix row share a column |
| LinkedMatrix.SpanMisses | solver/DancingLinksSolver.java:167-183 | the three nodes a removal walk detaches at q lie outside q's column, so the walk's own links stay |
| LinkedMatrix.InitialWalk | solver/DancingLinksSolver.java:38-65 | once the row loop has run, walking down from a header lists its ColumnNodes |
| LinkedMatrix.MinFrom | solver/DancingLinksSolver.java:116-131 | findMinCol's loop from column i: the first active column of strictly least count beats the choice so far |
| LinkedMatrix.MinActive | solver/DancingLinksSolver.java:116-131 | findMinCol is -1 (null) exactly when no column is active, and otherwise the lowest-numbered active column of least count |
| LinkedMatrix.RoundTrip | solver/DancingLinksSolver.java:44-54 | walking right from a node comes back to it after four steps and not before |
| LinkedMatrix.StagedStep | solver/DancingLinksSolver.java:61-64 | addVertical of the next node on a partly built arena gives the arena built one node further |
| LinkedMatrix.StagedAll | solver/DancingLinksSolver.java:38-65 | after the row loop the arena is fully built |
| LinkedMatrix.RowColumns | solver/DancingLinksSolver.java:223-242 | the four columns of matrix row x, as the index functions compute them |
| LinkedMatrix.CellColumnOfRow | solver/DancingLinksSolver.java:223-242 | cell column r·n + c is one of row x's columns exactly when x is a row of cell (r, c) |
| AlgorXModel.RemoveIf | solver/AlgorXSolver.java:146-203 | a block of removeConstraints that fires leaves the row with only its family-k entry |
| AlgorXModel.ResetIf | solver/AlgorXSolver.java:205-273 | a block of resetConstraintsByRow that fires restores all four entries of the row |
| AlgorXModel.FirstHit | solver/AlgorXSolver.java:146-203 | the first family from k on whose block would fire, or 4 |
| AlgorXModel.RowStep | solver/AlgorXSolver.java:146-273 | the effect of the four sequential blocks on one row, entries and count changes |
| AlgorXModel.RemoveRowFirst | solver/AlgorXSolver.java:146-203 | in removeConstraints only the first firing block acts; the row keeps that entry and the other three columns count down |
| AlgorXModel.RemoveRowMonotone | solver/AlgorXSolver.java:146-203 | removing never sets an entry and never raises a count |
| AlgorXModel.ResetRowMonotone | solver/AlgorXSolver.java:205-273 | resetting never clears an entry and never lowers a count |
| AlgorXModel.ResetRowBits | solver/AlgorXSolver.java:205-273 | the source's reset sets the same entries as the corrected reset, whatever the row |
| AlgorXModel.UndoRow | solver/AlgorXSolver.java:135-273 | a row that is full whenever a block fires is restored by remove then reset, and the corrected reset gives back exactly the counts remove took |
| AlgorXModel.InclAfter | solver/AlgorXSolver.java:141-144 | the four flags of the covering row's columns set to the given value, the others kept |
| AlgorXModel.TableAfter | solver/AlgorXSolver.java:146-273 | every row's entries after an operation on a covering row |
| AlgorXModel.SumsAfter | solver/AlgorXSolver.java:146-273 | each count after the operation: remove lowers it, both resets raise it |
| AlgorXModel.Apply | solver/AlgorXSolver.java:135-273 | the state after removeConstraints, resetConstraintsByRow or the corrected reset: flags, entries and counts |
| AlgorXModel.Initial | solver/AlgorXSolver.java:89-120 | the constructor's state: every row full, every count the given count, every column included |
| AlgorXModel.ColumnTable | solver/AlgorXSolver.java:105-119 | the four family columns of every matrix row |
| AlgorXModel.FamilyColumns | solver/AlgorXSolver.java:105-119 | row x's four columns in family order |
| AlgorXModel.ColumnTableLaid | solver/AlgorXSolver.java:275-294 | the index functions keep each family in its own band |
| AlgorXModel.OneCellTable | solver/AlgorXSolver.java:105-119 | the one-cell grid (b = n = 1) has one row, with columns 0, 1, 2, 3 |
| AlgorXModel.InitialMatrix | solver/AlgorXSolver.java:89-120 | the constructor's matrix has each row's four columns set and every count n |
| AlgorXModel.Undo | solver/AlgorXSolver.java:135-273 | resetConstraintsByRow straight after removeConstraints on the same row restores the flags and every entry; the corrected reset also restores every count |
| AlgorXModel.ResetOverCounts | solver/AlgorXSolver.java:205-273 | the source's reset over-counts: on the one-cell grid, reset(0) after remove(0) leaves count 4 where the constructor set 1; the corrected reset gives 1 |
| AlgorXModel.RemoveMonotone | solver/AlgorXSolver.java:135-203 | removeConstraints clears exactly the covering row's four flags, never sets an entry, never raises a count |
| AlgorXModel.ResetMonotone | solver/AlgorXSolver.java:205-273 | resetConstraintsByRow sets exactly the covering row's four flags, never clears an entry, never lowers a count |
| AlgorXModel.InitialSettled | solver/AlgorXSolver.java:89-120 | every row of the constructor's matrix is full or down to one covered entry |
| AlgorXModel.SettledRemoveRow | solver/AlgorXSolver.java:146-203 | removeConstraints keeps each row full or down to one covered entry |
| AlgorXModel.SettledRemove | solver/AlgorXSolver.java:135-203 | every removeConstraints preserves that invariant |
| AlgorXModel.PickedRowFull | solver/AlgorXSolver.java:38-44 | a row with an entry at an included column is full, so the row performCalcs picks is whole |
| AlgorXModel.FullRowIncluded | solver/AlgorXSolver.java:38-44 | a full row has its four columns included |
| AlgorXModel.FullRowReady | solver/AlgorXSolver.java:44-52 | a full row can be removed and undone |
| AlgorXModel.ActiveRemove | solver/AlgorXSolver.java:141-144 | removing a row whose four columns are included lowers the number of included columns by four |
| AlgorXModel.InitialCounted | solver/AlgorXSolver.java:100-119 | the constructor's count n is the number of entries of each column |
| AlgorXModel.CountedRemove | solver/AlgorXSolver.java:146-203 | removeConstraints keeps every count exact, when every row that fires is full |
| AlgorXModel.RestoreRow | solver/AlgorXSolver.java:205-273 | the corrected reset is the `else if` chain of the blocks: only the first that would fire acts |
| AlgorXModel.Scan | solver/AlgorXSolver.java:60-76 | findMinCol's loop: an included column with count 0 ends the scan, otherwise an included column of strictly smaller count replaces the choice |
| AlgorXModel.MinCol | solver/AlgorXSolver.java:60-76 | findMinCol: -1 when every column is covered, otherwise the first included column of count 0, else the first included column of least count |
| AlgorXSearch.XSearch | solver/AlgorXSolver.java:25-58 | performCalcs on a state and grid, with its answer, final state and final grid |
| AlgorXSearch.XTry | solver/AlgorXSolver.java:38-55 | performCalcs's loop over rows x, x+1, … of the chosen column |
| AlgorXSearch.XTrySkip | solver/AlgorXSolver.java:39 | a row without an entry in the chosen column is skipped |
| AlgorXSearch.XPick | solver/AlgorXSolver.java:40-54 | one try: remove the row, write its digit, recurse; on failure erase, reset and go on from the reset's state |
| AlgorXSearch.ResetAfterRemove | solver/AlgorXSolver.java:44-52 | resetConstraintsByRow after removeConstraints gives back the entries and flags |
| AlgorXSearch.InitFrom | solver/AlgorXSolver.java:122-133 | init from a cell on, in row-major order: every filled cell removes the row of its digit |
| AlgorXSearch.InitSettled | solver/AlgorXSolver.java:122-133 | init keeps every row full or down to one covered entry |
| AlgorXCover.ExactCoverAtMostOnce | solver/AlgorXSolver.java:25-58 | an exact cover covers every column at most once |
| AlgorXCover.Clash | solver/AlgorXSolver.java:275-294 | two distinct placed rows that share a family column give it a count of two |
| AlgorXCover.Apart | solver/AlgorXSolver.java:275-294 | with at most one placed row per column, two filled cells in a common row, column or box differ |
| AlgorXCover.CellHoldsDigit | solver/AlgorXSolver.java:275-294 | a cell whose cell column has a placed row holds a digit |
| AlgorXCover.ExactCoverSolution | solver/AlgorXSolver.java:15-23 | an exact cover of the columns is a Sudoku solution |
| AlgorXCover.PairClash | solver/AlgorXSolver.java:275-294 | two placed members of one column are equal digits in peer cells |
| AlgorXCover.ClashlessIffAtMostOnce | solver/AlgorXSolver.java:275-294 | for a grid of givens, having no clash is having at most one placed row per column, both directions |
| AlgorXCover.LinkedWrite | solver/AlgorXSolver.java:44-46 | removing a row and writing its digit into its empty cell keeps the matrix in step with the grid |
| AlgorXCover.IncludedCellEmpty | solver/AlgorXSolver.java:38-46 | when every column of a row is included, its cell is empty |
| AlgorXCover.WriteErase | solver/AlgorXSolver.java:46-51 | writing a digit into an empty cell keeps the givens, and erasing it restores the grid |
| AlgorXCover.ExtendsTrans | solver/AlgorXSolver.java:25-58 | extending the givens is transitive |
| AlgorXCover.XSearchSound | solver/AlgorXSolver.java:25-58 | performCalcs is sound: success gives an exact cover that agrees with every filled cell, and failure leaves the grid as it was |
| AlgorXCover.XTrySound | solver/AlgorXSolver.java:38-55 | the loop over the rows of the chosen column is sound |
| AlgorXCover.XPickSound | solver/AlgorXSolver.java:40-54 | a try of one row and the loop after it are sound |
| AlgorXCover.InStepTwin | solver/AlgorXSolver.java:44-52 | a state with the same entries and flags as one in step with the grid is also in step, so the reset's counts do not matter |
| AlgorXCover.PickSound | solver/AlgorXSolver.java:40-54 | a sound search after the pick and a sound loop after the reset make the try sound |
| AlgorXCover.PickStep | solver/AlgorXSolver.java:44-52 | picking a row: fewer included columns, in step with the grid after writing, and erasing gives the grid back |
| AlgorXCover.InitialLinked | solver/AlgorXSolver.java:89-120 | the constructor's matrix is in step with the empty grid |
| AlgorXCover.InitLinked | solver/AlgorXSolver.java:122-133 | init leaves the matrix in step with all the givens, when they clash nowhere |
| AlgorXCover.InitStep | solver/AlgorXSolver.java:126-131 | init's removal for one given keeps the state in step with the givens up to it |
| AlgorXCover.SolveSound | solver/AlgorXSolver.java:15-23 | solve is sound: on clash-free givens success leaves a Sudoku solution agreeing with every given, and failure leaves the grid unchanged |
| AlgorX.AlgXMatrix.constructor | solver/AlgorXSolver.java:89-120 | every row has its four family entries, every column is included and has count n |
| AlgorX.AlgXMatrix.IncludeColumns | solver/AlgorXSolver.java:100-103 | the column loop includes every column with count n |
| AlgorX.AlgXMatrix.SetRows | solver/AlgorXSolver.java:105-119 | the row loop sets every row's four family entries |
| AlgorX.AlgXMatrix.SetRow | solver/AlgorXSolver.java:106-118 | one row's four family entries set |
| AlgorX.AlgXMatrix.MoveCounts | solver/AlgorXSolver.java:146-273 | the three count updates of a fired block |
| AlgorX.AlgXMatrix.SetEntries | solver/AlgorXSolver.java:146-273 | the three entry updates of a fired block |
| AlgorX.AlgXMatrix.Block | solver/AlgorXSolver.java:146-273 | one `if` block: it fires when the row still has its entry in the covering row's family column, then moves the other three entries and counts |
| AlgorX.AlgXMatrix.Pass | solver/AlgorXSolver.java:146-273 | the loop body on one row: the four blocks in family order, each seeing the earlier ones' changes |
| AlgorX.AlgXMatrix.RestorePass | solver/AlgorXSolver.java:205-273 | the corrected loop body: the four blocks as an `else if` chain |
| AlgorX.AlgXMatrix.SweepRow | solver/AlgorXSolver.java:146-273 | one turn of the loop over the rows |
| AlgorX.AlgXMatrix.Sweep | solver/AlgorXSolver.java:146-273 | the loop over every row, with the result Apply states |
| AlgorX.AlgXMatrix.Update | solver/AlgorXSolver.java:135-273 | the four flags, then the blocks on every row: the state becomes Apply of the old state |
| AlgorX.AlgXMatrix.RemoveConstraints | solver/AlgorXSolver.java:135-203 | removeConstraints's new state is Apply(Remove) of the old |
| AlgorX.AlgXMatrix.ResetConstraintsByRow | solver/AlgorXSolver.java:205-273 | resetConstraintsByRow as written: its new state is Apply(Reset) of the old |
| AlgorX.AlgXMatrix.RestoreConstraints | solver/AlgorXSolver.java:205-273 | the corrected reset: its new state is Apply(Restore) of the old |
| AlgorX.AlgXMatrix.Init | solver/AlgorXSolver.java:122-133 | init: the state becomes InitFrom on the grid's filled cells |
| AlgorX.AlgXMatrix.InitRow | solver/AlgorXSolver.java:126-132 | the inner loop of init over one grid row |
| AlgorXSolver.FindMinCol | solver/AlgorXSolver.java:60-76 | findMinCol returns MinCol of the state |
| AlgorXSolver.PerformCalcs | solver/AlgorXSolver.java:25-58 | performCalcs's answer, final state and grid are XSearch's |
| AlgorXSolver.TryRows | solver/AlgorXSolver.java:38-55 | the loop over the rows of the chosen column equals XTry |
| AlgorXSolver.TryRow | solver/AlgorXSolver.java:39-54 | one pass of the loop equals XPick, or XTrySkip when the row has no entry there |
| AlgorXSolver.Solve | solver/AlgorXSolver.java:15-23 | solve's answer and grid are XSearch's on init's matrix; on clash-free givens success is a Sudoku solution keeping every given and failure leaves the grid unchanged |
| DancingLinksModel.CoverFrom | solver/DancingLinksSolver.java:167-183 | removeConstraintsByCol's walk: every row met detaches its other three nodes and counts down; the walked column's links stay |
| DancingLinksModel.UncoverFrom | solver/DancingLinksSolver.java:185-201 | resetConstraintsByCol's walk: every row met reattaches its other three nodes and counts up |
| DancingLinksModel.CoverFromKeeps | solver/DancingLinksSolver.java:167-183 | the walk leaves the walked column's other nodes alone and takes one per node from each count |
| DancingLinksModel.UncoverFromKeeps | solver/DancingLinksSolver.java:185-201 | the reset walk leaves the walked column alone and adds one per node to each count |
| DancingLinksModel.Cover | solver/DancingLinksSolver.java:167-183 | removeConstraintsByCol: the walk from the header's first node |
| DancingLinksModel.Uncover | solver/DancingLinksSolver.java:185-201 | resetConstraintsByCol: the walk from the header's first node |
| DancingLinksModel.CoverUncover | solver/DancingLinksSolver.java:167-201 | resetting a column right after removing it walks the same rows: every count comes back and the column's own links are untouched |
| DancingLinksModel.InitialCover | solver/DancingLinksSolver.java:167-183 | on the initial matrix, removing a column walks exactly the rows covering it, from the last one down |
| DancingLinksModel.CoverRow | solver/DancingLinksSolver.java:133-148 | the first k removeConstraintsByCol calls of removeConstraintsByRow |
| DancingLinksModel.UncoverRow | solver/DancingLinksSolver.java:150-165 | the first k resetConstraintsByCol calls of resetConstraintsByRow |
| DancingLinksModel.RemoveRow | solver/DancingLinksSolver.java:133-148 | removeConstraintsByRow: the four flags cleared, then the four columns removed in family order |
| DancingLinksModel.ResetRow | solver/DancingLinksSolver.java:150-165 | resetConstraintsByRow: the four flags set, then the four columns reset in family order |
| DancingLinksModel.Initial | solver/DancingLinksSolver.java:32-65 | initMatrix's row loop leaves every node added, every count n and every column active |
| DancingLinksModel.DLSearch | solver/DancingLinksSolver.java:79-114 | performCalcs: true when no column is active, false when the chosen count is 0, otherwise the loop; it keeps filled cells behind inactive cell columns |
| DancingLinksModel.DLTry | solver/DancingLinksSolver.java:92-111 | the loop from node q: write and remove q's row, recurse, then continue as DLNext says |
| DancingLinksModel.DLNext | solver/DancingLinksSolver.java:103-110 | after the call: stop on success; on failure reset, empty the cell and continue from the node below q as the reset left it |
| DancingLinksModel.RemoveMarked | solver/DancingLinksSolver.java:99-101 | removing a row after writing its digit keeps a filled cell behind every inactive cell column |
| DancingLinksModel.ResetMarked | solver/DancingLinksSolver.java:106-107 | resetting a row and emptying its cell keeps that invariant |
| DancingLinksModel.StepKept | solver/DancingLinksSolver.java:92-111 | one try of the loop keeps the promises made before it |
| DancingLinksModel.SuccessKept | solver/DancingLinksSolver.java:99-104 | a try that succeeds keeps the promises |
| DancingLinksModel.FailKept | solver/DancingLinksSolver.java:99-110 | a failed try followed by the rest of the loop keeps the promises |
| DancingLinksModel.KeptChain | solver/DancingLinksSolver.java:92-111 | the promises chain over a failed try and the rest of the loop |
| DancingLinksModel.KeptSolved | solver/DancingLinksSolver.java:99-104 | a try that solves keeps the promises made before it |
| DancingLinksModel.DLInitFrom | solver/DancingLinksSolver.java:67-76 | initMatrix's givens pass: every filled cell removes the row of its digit |
| DancingLinksModel.GivenMarked | solver/DancingLinksSolver.java:72-73 | removing the row of a filled cell keeps a filled cell behind every inactive cell column |
| DancingLinksModel.DLSolve | solver/DancingLinksSolver.java:19-24 | solve: initMatrix's rows and givens, then performCalcs |
| DancingLinksModel.SolveFilled | solver/DancingLinksSolver.java:19-24 | on givens of a distinct nonzero alphabet, success fills every cell with a digit; failure leaves each cell as it was or empty |
| DancingLinksModel.KeptFilled | solver/DancingLinksSolver.java:79-101 | a search that keeps its promises fills every cell with a digit when it succeeds |
| DancingLinks.CoverStep | solver/DancingLinksSolver.java:167-183 | a walk's step: drop the three nodes right of q, then go on from q's lower neighbour, which the drops leave |
| DancingLinks.UncoverStep | solver/DancingLinksSolver.java:185-201 | the reset walk's step: lift the three nodes right of q, then go on below q |
| DancingLinks.DLMatrix.constructor | solver/DancingLinksSolver.java:26-65 | the matrix after headers and row loop is DancingLinksModel.Initial |
| DancingLinks.DLMatrix.LinkRows | solver/DancingLinksSolver.java:38-65 | the row loop builds every row and adds its nodes under their headers |
| DancingLinks.DLMatrix.AddRow | solver/DancingLinksSolver.java:39-64 | one row's four nodes joined left and right and each added under its header |
| DancingLinks.DLMatrix.AddNodes | solver/DancingLinksSolver.java:61-64 | the four addVertical calls of one row |
| DancingLinks.DLMatrix.ColumnsOfRow | solver/DancingLinksSolver.java:223-242 | the four index functions of a row: its four columns |
| DancingLinks.DLMatrix.LinkRow | solver/DancingLinksSolver.java:39-55 | one row's four nodes joined into a ring left and right |
| DancingLinks.DLMatrix.AddNode | solver/DancingLinksSolver.java:61-64 | one addVertical: the arena built one node further |
| DancingLinks.DLMatrix.AddVertical | solver/DancingLinksSolver.java:329-335 | addVertical: p goes directly below the header |
| DancingLinks.DLMatrix.DetachNode | solver/DancingLinksSolver.java:263-266 | detachNode's pointers are Rings.Detach's |
| DancingLinks.DLMatrix.ReattachNode | solver/DancingLinksSolver.java:268-271 | reatachNode's pointers are Rings.Reattach's |
| DancingLinks.DLMatrix.HeaderOf | solver/DancingLinksSolver.java:203-211 | going up from a node reaches its column's header |
| DancingLinks.DLMatrix.DecrementColumnOfConstraint | solver/DancingLinksSolver.java:203-211 | one off the count of the node's column only |
| DancingLinks.DLMatrix.IncrementColumnOfConstraint | solver/DancingLinksSolver.java:213-221 | one more on the count of the node's column only |
| DancingLinks.DLMatrix.DropNode | solver/DancingLinksSolver.java:174-176 | the inner loop body: detach, then decrement, is Rings.Drop |
| DancingLinks.DLMatrix.DropAt | solver/DancingLinksSolver.java:173-179 | the inner loop at k steps right of q |
| DancingLinks.DLMatrix.DetachRow | solver/DancingLinksSolver.java:171-179 | the inner loop detaches the three other nodes of q's row |
| DancingLinks.DLMatrix.CoverAt | solver/DancingLinksSolver.java:170-182 | one step of the outer loop, then on to the node below q |
| DancingLinks.DLMatrix.RemoveConstraintsByCol | solver/DancingLinksSolver.java:167-183 | removeConstraintsByCol's new state is DancingLinksModel.Cover of the old |
| DancingLinks.DLMatrix.LiftNode | solver/DancingLinksSolver.java:192-194 | the reset's inner body: reattach, then increment, is Rings.Lift |
| DancingLinks.DLMatrix.LiftAt | solver/DancingLinksSolver.java:191-197 | the reset's inner loop at k steps right of q |
| DancingLinks.DLMatrix.ReattachRow | solver/DancingLinksSolver.java:189-197 | the inner loop reattaches the three other nodes of q's row |
| DancingLinks.DLMatrix.UncoverAt | solver/DancingLinksSolver.java:188-200 | one step of the reset's outer loop |
| DancingLinks.DLMatrix.ResetConstraintsByCol | solver/DancingLinksSolver.java:185-201 | resetConstraintsByCol's new state is DancingLinksModel.Uncover of the old |
| DancingLinks.DLMatrix.CoverColumns | solver/DancingLinksSolver.java:144-147 | the four removeConstraintsByCol calls in family order |
| DancingLinks.DLMatrix.UncoverColumns | solver/DancingLinksSolver.java:161-164 | the four resetConstraintsByCol calls in family order |
| DancingLinks.DLMatrix.RemoveConstraintsByRow | solver/DancingLinksSolver.java:133-148 | removeConstraintsByRow's new state is DancingLinksModel.RemoveRow of the old |
| DancingLinks.DLMatrix.ResetConstraintsByRow | solver/DancingLinksSolver.java:150-165 | resetConstraintsByRow's new state is DancingLinksModel.ResetRow of the old |
| DancingLinks.DLMatrix.FindMinCol | solver/DancingLinksSolver.java:116-131 | findMinCol returns MinActive: -1 for null, otherwise the first active column of least count |
| DancingLinks.DLMatrix.InitGivens | solver/DancingLinksSolver.java:67-76 | the givens pass: the state becomes DLInitFrom on the grid's values |
| DancingLinks.DLMatrix.InitRow | solver/DancingLinksSolver.java:68-75 | the inner loop of the givens pass over one grid row |
| DancingLinks.DLMatrix.InitCell | solver/DancingLinksSolver.java:70-74 | one cell: when filled, removeConstraintsByRow on the row of its digit |
| DancingLinksSolver.PerformCalcs | solver/DancingLinksSolver.java:79-114 | performCalcs's answer, final matrix and final grid are DLSearch's |
| DancingLinksSolver.TryRows | solver/DancingLinksSolver.java:92-111 | the loop down the chosen column equals DLTry |
| DancingLinksSolver.TryRow | solver/DancingLinksSolver.java:93-110 | one pass of the loop, with the node the pass hands on |
| DancingLinksSolver.Descend | solver/DancingLinksSolver.java:103-108 | the nested call, then on failure the undo |
| DancingLinksSolver.Retreat | solver/DancingLinksSolver.java:106-110 | the undo after a failed search, handing on the node now below q |
| DancingLinksSolver.Place | solver/DancingLinksSolver.java:99-101 | setCell with the row's digit, then removeConstraintsByRow |
| DancingLinksSolver.Unplace | solver/DancingLinksSolver.java:106-107 | resetConstraintsByRow, then setCell to empty |
| DancingLinksSolver.TryIs | solver/DancingLinksSolver.java:92-111 | DLTry unfolded at one node |
| DancingLinksSolver.NextIs | solver/DancingLinksSolver.java:106-110 | DLNext unfolded after a failed search |
| DancingLinksSolver.Solve | solver/DancingLinksSolver.java:19-24 | solve's answer and grid are DLSolve's; on givens of a distinct nonzero alphabet success fills every cell, failure leaves each cell as it was or empty |
| KillerAdvancedModel.WalkHead | solver/KillerAdvancedSolver.java:238-258 | the walk from q is q followed by the walk from the node below |
| KillerAdvancedModel.Picked | solver/KillerAdvancedSolver.java:238-258 | the nodes of the walk whose row has the given lock value, in walk order |
| KillerAdvancedModel.WalkOtherRows | solver/KillerAdvancedSolver.java:238-258 | no node met below q in its column belongs to q's row |
| KillerAdvancedModel.DropOthers | solver/KillerAdvancedSolver.java:245-251 | detaching q's row's other three nodes keeps q's column and takes one per node from each count |
| KillerAdvancedModel.LiftOthers | solver/KillerAdvancedSolver.java:267-273 | reattaching them keeps q's column and adds one per node to each count |
| KillerAdvancedModel.CoverStep | solver/KillerAdvancedSolver.java:242-256 | one row of removeConstraintsByCol: unless cage-locked, its other nodes detach and it becomes constraint-locked |
| KillerAdvancedModel.UncoverStep | solver/KillerAdvancedSolver.java:264-278 | one row of resetConstraintsByCol: if constraint-locked, its other nodes reattach and it is unlocked |
| KillerAdvancedModel.CoverFrom | solver/KillerAdvancedSolver.java:238-258 | the removal walk: every row that is not cage-locked detaches and is locked, counts go down per node, the walked column stays |
| KillerAdvancedModel.UncoverFrom | solver/KillerAdvancedSolver.java:260-280 | the reset walk: every constraint-locked row reattaches and is unlocked, counts go up per node |
| KillerAdvancedModel.Cover | solver/KillerAdvancedSolver.java:238-258 | removeConstraintsByCol from the header's first node |
| KillerAdvancedModel.Uncover | solver/KillerAdvancedSolver.java:260-280 | resetConstraintsByCol from the header's first node |
| KillerAdvancedModel.CoverUncover | solver/KillerAdvancedSolver.java:238-280 | resetting a column right after removing it, with none of its rows constraint-locked, restores the counts and the constraint locks |
| KillerAdvancedModel.SumsRestored | solver/KillerAdvancedSolver.java:238-280 | counts that lost and then regained what a list of rows holds are as they were |
| KillerAdvancedModel.LocksRestored | solver/KillerAdvancedSolver.java:238-280 | constraint locks set on unlocked rows and then cleared on the same rows are as they were |
| KillerAdvancedModel.CoverRow | solver/KillerAdvancedSolver.java:215-218 | the first k removeConstraintsByCol calls of removeConstraintsByRow |
| KillerAdvancedModel.UncoverRow | solver/KillerAdvancedSolver.java:232-235 | the first k resetConstraintsByCol calls of resetConstraintsByRow |
| KillerAdvancedModel.RemoveRow | solver/KillerAdvancedSolver.java:204-219 | removeConstraintsByRow: isActive cleared at the four columns, the four columns removed, cage locks untouched |
| KillerAdvancedModel.ResetRow | solver/KillerAdvancedSolver.java:221-236 | resetConstraintsByRow: isActive set at the four columns, the four columns reset |
| Relink.DropAllLifting | solver/KillerAdvancedSolver.java:435-442 | detaching distinct attached nodes one after another leaves them waiting, in that order, to be reattached: each attached node keeps every old pointer whose target is still attached, each detached node every old pointer whose target was not detached before it, nodes off the lists are untouched, and each count is down by the nodes detached from its column |
| Relink.LiftStep | solver/KillerAdvancedSolver.java:444-451 | reattaching the first waiting node keeps that description, with the node taken off the front of the waiting nodes |
| Relink.LiftingDone | solver/KillerAdvancedSolver.java:444-451 | once no node waits, every pointer and count is the original one |
| Relink.LiftDropAll | solver/KillerAdvancedSolver.java:435-451 | reattaching distinct attached nodes in the same order as they were detached gives back the original pointers and counts |
| RingFilter.DropAllRings | solver/KillerAdvancedSolver.java:435-442 | after distinct nodes of the lists are detached, walking any column from its header meets its old list with those nodes left out |
| KillerAdvancedUndo.CoverLinks | solver/KillerAdvancedSolver.java:238-258 | the removal walk down a column leaves the links that detaching, in walk order, the other nodes of every row met that is not cage-locked gives |
| KillerAdvancedUndo.UncoverLinks | solver/KillerAdvancedSolver.java:260-280 | the reset walk down a column leaves the links that reattaching, in walk order, the other nodes of every constraint-locked row met gives |
| KillerAdvancedReset.CoverRowPlan | solver/KillerAdvancedSolver.java:204-219 | after the first k column walks of removeConstraintsByRow, the links are the original ones with the other nodes of the picked rows detached in pick order, every column's list is its old list without those nodes, and a row is constraint-locked exactly when it was before or was picked |
| KillerAdvancedReset.LockedIff | solver/KillerAdvancedSolver.java:260-280 | when the reset reaches its walk k, a node on that column's list has its row constraint-locked exactly when walk k of the removal picked it |
| KillerAdvancedReset.UncoverPicks | solver/KillerAdvancedSolver.java:260-280 | walk k of the reset picks exactly the nodes walk k of the removal picked, in the same order |
| KillerAdvancedReset.UncoverRowPlan | solver/KillerAdvancedSolver.java:221-236 | after the first k column walks of resetConstraintsByRow, the nodes the removal's later walks detached still wait in order, every earlier one is back, and the locks of the rows met are cleared |
| KillerAdvancedReset.ResetBack | solver/KillerAdvancedSolver.java:221-236 | the four reset walks give back the links and the constraint locks the removal started from |
| KillerAdvancedReset.RemoveReset | solver/KillerAdvancedSolver.java:204-236 | resetConstraintsByRow right after removeConstraintsByRow(x), started where every row on x's four column lists is whole and not constraint-locked, gives back every pointer, every count, the constraint locks and the cage locks, and leaves x's four columns active |
| KillerAdvancedModel.DropRow | solver/KillerAdvancedSolver.java:192-196 | detaching a row's four nodes takes one per node from each count |
| KillerAdvancedModel.LiftRow | solver/KillerAdvancedSolver.java:182-186 | reattaching a row's four nodes adds one per node to each count |
| KillerAdvancedModel.SyncRow | solver/KillerAdvancedSolver.java:173-197 | one row of deleteRowsByCage: constraint-locked rows skipped; an allowed cage-locked row is unlocked and reattached; a barred unlocked row is locked and detached |
| KillerAdvancedModel.CageRow | solver/KillerAdvancedSolver.java:166-167 | the row deleteRowsByCage computes for a cell and digit uses the digit's least position |
| KillerAdvancedModel.CageRowIs | solver/KillerAdvancedSolver.java:166-167 | a row is the computed one exactly when it decodes to that cell and the digit's least position |
| KillerAdvancedModel.SyncCells | solver/KillerAdvancedSolver.java:165-199 | the inner loop over a cage's cells: each row met that is not constraint-locked ends cage-locked exactly when the digit is barred |
| KillerAdvancedModel.SyncDigits | solver/KillerAdvancedSolver.java:162-201 | the outer loop over the digits: every row of the cage's cells except the forbidden row has its cage lock settled |
| KillerAdvancedModel.Sync | solver/KillerAdvancedSolver.java:159-202 | deleteRowsByCage with the allowed digits, sparing the forbidden row |
| KillerAdvancedModel.SyncDistinct | solver/KillerAdvancedSolver.java:159-202 | with a distinct alphabet, every row of the cage's cells other than the forbidden one that is not constraint-locked ends cage-locked exactly when its digit is not allowed; every other row keeps its lock |
| KillerAdvancedModel.LockRow | solver/KillerAdvancedSolver.java:81-89 | initMatrix's cage pass at one row: its four nodes detached and its cage lock set |
| KillerAdvancedModel.InitCells | solver/KillerAdvancedSolver.java:75-90 | the cage pass over one cage's cells for one digit |
| KillerAdvancedModel.InitDigits | solver/KillerAdvancedSolver.java:72-92 | the cage pass over the digits for one cage: every barred digit locks its row in each cell |
| KillerAdvancedModel.InitCages | solver/KillerAdvancedSolver.java:71-93 | the cage pass over every cage |
| KillerAdvancedModel.BarredDistinct | solver/KillerAdvancedSolver.java:71-93 | with a distinct alphabet a digit position is barred exactly when its digit is not possible |
| KillerAdvancedModel.Initial | solver/KillerAdvancedSolver.java:41-69 | initMatrix's row loop: every node added, every count n, every column active, no row locked |
| KillerAdvancedModel.Start | solver/KillerAdvancedSolver.java:34-94 | initMatrix: every column active, no constraint lock, and a row cage-locked exactly when a cage of its cell bars its digit |
| KillerAdvancedModel.CageFrom | solver/KillerAdvancedSolver.java:119 | the first cage from the i-th on holding the cell, or -1 |
| KillerAdvancedModel.CageOf | solver/KillerAdvancedSolver.java:119 | getCage: the first cage holding the cell, or -1 when none does |
| KillerAdvancedModel.KSearch | solver/KillerAdvancedSolver.java:96-140 | performCalcs: true with no active column, false at count 0, a crash when the column holds no node, otherwise the loop; it keeps filled cells behind inactive cell columns |
| KillerAdvancedModel.KTry | solver/KillerAdvancedSolver.java:109-137 | the loop from q: write, re-sync the cell's cage with the row spared, remove the row and recurse; a crash when the cell has no cage |
| KillerAdvancedModel.KNext | solver/KillerAdvancedSolver.java:124-137 | after the call: stop unless it failed; on failure empty, reset, re-sync and go on below q |
| KillerAdvancedModel.WriteMarked | solver/KillerAdvancedSolver.java:116-122 | writing and removing a row keeps cells within the alphabet and a filled cell behind every inactive cell column |
| KillerAdvancedModel.EraseMarked | solver/KillerAdvancedSolver.java:127-129 | emptying the cell and reactivating the row's columns keeps that invariant |
| KillerAdvancedModel.StepKept | solver/KillerAdvancedSolver.java:109-137 | one try of the loop keeps the promises made before it |
| KillerAdvancedModel.KeptChain | solver/KillerAdvancedSolver.java:109-137 | the promises chain over a failed try and the rest of the loop |
| KillerAdvancedModel.KSolve | solver/KillerAdvancedSolver.java:24-32 | solve: initMatrix, then performCalcs |
| KillerAdvancedModel.SolveFilled | solver/KillerAdvancedSolver.java:24-32 | on givens of a distinct nonzero alphabet success fills every cell with a digit; failure leaves each cell as it was or empty |
| KillerAdvancedModel.KeptFilled | solver/KillerAdvancedSolver.java:96-101 | a search that keeps its promises from all columns active fills every cell when it succeeds |
| KillerAdvanced.KMatrix.constructor | solver/KillerAdvancedSolver.java:34-69 | headers with count n, rows unlocked, then the row loop: the state is KillerAdvancedModel.Initial |
| KillerAdvanced.KMatrix.Wire | solver/KillerAdvancedSolver.java:45-69 | the row loop on the fresh arena ends in KillerAdvancedModel.Initial |
| KillerAdvanced.KMatrix.LinkRows | solver/KillerAdvancedSolver.java:45-69 | the row loop builds every row and adds its nodes under their headers |
| KillerAdvanced.KMatrix.AddRow | solver/KillerAdvancedSolver.java:46-68 | one row's four nodes joined into their row and added under their headers |
| KillerAdvanced.KMatrix.AddNodes | solver/KillerAdvancedSolver.java:65-68 | the four addVertical calls of one row |
| KillerAdvanced.KMatrix.ColumnsOfRow | solver/KillerAdvancedSolver.java:282-305 | the four index functions of a row: its four columns |
| KillerAdvanced.KMatrix.LinkRow | solver/KillerAdvancedSolver.java:54-63 | one row's four nodes joined right into a ring |
| KillerAdvanced.KMatrix.AddNode | solver/KillerAdvancedSolver.java:65-68 | one addVertical: the arena built one node further |
| KillerAdvanced.KMatrix.AddVertical | solver/KillerAdvancedSolver.java:362-368 | addVertical: p goes directly below the header |
| KillerAdvanced.KMatrix.DetachNode | solver/KillerAdvancedSolver.java:435-442 | detachNode is Rings.Drop: neighbours joined, one off the column's count |
| KillerAdvanced.KMatrix.ReattachNode | solver/KillerAdvancedSolver.java:444-451 | reattachNode is Rings.Lift: neighbours point back, one more on the count |
| KillerAdvanced.KMatrix.DropAt | solver/KillerAdvancedSolver.java:248-250 | the inner loop at k steps right of q |
| KillerAdvanced.KMatrix.LiftAt | solver/KillerAdvancedSolver.java:270-272 | the reset's inner loop at k steps right of q |
| KillerAdvanced.KMatrix.DetachOthers | solver/KillerAdvancedSolver.java:245-251 | the inner loop detaches the three other nodes of q's row |
| KillerAdvanced.KMatrix.ReattachOthers | solver/KillerAdvancedSolver.java:267-273 | the reset's inner loop reattaches them |
| KillerAdvanced.KMatrix.CoverAt | solver/KillerAdvancedSolver.java:242-256 | one outer step: unless cage-locked, detach and lock the row, then on below q |
| KillerAdvanced.KMatrix.RemoveConstraintsByCol | solver/KillerAdvancedSolver.java:238-258 | removeConstraintsByCol's new state is KillerAdvancedModel.Cover of the old |
| KillerAdvanced.KMatrix.UncoverAt | solver/KillerAdvancedSolver.java:264-278 | one outer reset step: if constraint-locked, reattach and unlock, then on below q |
| KillerAdvanced.KMatrix.ResetConstraintsByCol | solver/KillerAdvancedSolver.java:260-280 | resetConstraintsByCol's new state is KillerAdvancedModel.Uncover of the old |
| KillerAdvanced.KMatrix.CoverColumns | solver/KillerAdvancedSolver.java:215-218 | the four removeConstraintsByCol calls in family order |
| KillerAdvanced.KMatrix.UncoverColumns | solver/KillerAdvancedSolver.java:232-235 | the four resetConstraintsByCol calls in family order |
| KillerAdvanced.KMatrix.RemoveConstraintsByRow | solver/KillerAdvancedSolver.java:204-219 | removeConstraintsByRow's new state is KillerAdvancedModel.RemoveRow of the old |
| KillerAdvanced.KMatrix.ResetConstraintsByRow | solver/KillerAdvancedSolver.java:221-236 | resetConstraintsByRow's new state is KillerAdvancedModel.ResetRow of the old |
| KillerAdvanced.KMatrix.FindMinCol | solver/KillerAdvancedSolver.java:142-157 | findMinCol returns MinActive: -1 for null, otherwise the first active column of least count |
| KillerAdvanced.KMatrix.DetachFour | solver/KillerAdvancedSolver.java:192-196 | four detachNode calls from the row's cell node: KillerAdvancedModel.DropRow |
| KillerAdvanced.KMatrix.ReattachFour | solver/KillerAdvancedSolver.java:182-186 | four reattachNode calls: KillerAdvancedModel.LiftRow |
| KillerAdvanced.KMatrix.SyncRowAt | solver/KillerAdvancedSolver.java:173-197 | deleteRowsByCage's body at one row is KillerAdvancedModel.SyncRow |
| KillerAdvanced.KMatrix.DeleteRowsByCage | solver/KillerAdvancedSolver.java:159-202 | deleteRowsByCage's new state is KillerAdvancedModel.Sync of the old |
| KillerAdvanced.KMatrix.SyncCellsOf | solver/KillerAdvancedSolver.java:165-199 | the inner loop over the cage's cells for one digit |
| KillerAdvanced.KMatrix.SyncCellAt | solver/KillerAdvancedSolver.java:166-171 | one cell: its row for the digit unless it is the forbidden row |
| KillerAdvanced.KMatrix.LockRowAt | solver/KillerAdvancedSolver.java:81-89 | the cage pass at one row: four nodes detached and the cage lock set |
| KillerAdvanced.KMatrix.InitCages | solver/KillerAdvancedSolver.java:71-93 | the cage pass's new state is KillerAdvancedModel.InitCages of the old |
| KillerAdvanced.KMatrix.InitCage | solver/KillerAdvancedSolver.java:72-92 | the cage pass for one cage |
| KillerAdvanced.KMatrix.LockCells | solver/KillerAdvancedSolver.java:75-90 | the inner loop over one cage's cells for one digit |
| KillerAdvanced.KMatrix.LockCellAt | solver/KillerAdvancedSolver.java:76-89 | the body at one cell: the row of that cell and digit locked |
| KillerAdvancedSolver.Search | solver/KillerAdvancedSolver.java:96-140 | KSearch under a non-recursive name |
| KillerAdvancedSolver.PerformCalcs | solver/KillerAdvancedSolver.java:96-140 | performCalcs's answer (or crash), final matrix and final grid are KSearch's |
| KillerAdvancedSolver.TryRows | solver/KillerAdvancedSolver.java:109-137 | the loop down the chosen column equals KTry |
| KillerAdvancedSolver.TryRow | solver/KillerAdvancedSolver.java:110-136 | one pass of the loop, with the node the pass hands on |
| KillerAdvancedSolver.Place | solver/KillerAdvancedSolver.java:112-119 | setCell with the row's digit, then getCage of the cell |
| KillerAdvancedSolver.Advance | solver/KillerAdvancedSolver.java:119-122 | deleteRowsByCage sparing the row, then removeConstraintsByRow |
| KillerAdvancedSolver.Descend | solver/KillerAdvancedSolver.java:124-130 | the nested call, then on failure the undo |
| KillerAdvancedSolver.Retreat | solver/KillerAdvancedSolver.java:127-136 | the undo after a failed search, handing on the node now below q |
| KillerAdvancedSolver.Unplace | solver/KillerAdvancedSolver.java:127-129 | setCell to empty, resetConstraintsByRow, deleteRowsByCage again |
| KillerAdvancedSolver.NextPasses | solver/KillerAdvancedSolver.java:124-125 | a search that did not fail ends the pass |
| KillerAdvancedSolver.TryIs | solver/KillerAdvancedSolver.java:109-137 | KTry unfolded at one node |
| KillerAdvancedSolver.NextIs | solver/KillerAdvancedSolver.java:127-136 | KNext unfolded after a failed search |
| KillerAdvancedSolver.Solve | solver/KillerAdvancedSolver.java:24-32 | solve's status and grid are KSolve's; on givens of a distinct nonzero alphabet success fills every cell and failure leaves each cell as it was or empty |
| KillerAdvancedSolver.InitMatrix | solver/KillerAdvancedSolver.java:34-94 | initMatrix yields a fresh matrix in state KillerAdvancedModel.Start |
| KillerAdvancedSolver.SolveIs | solver/KillerAdvancedSolver.java:24-32 | solve's outcome is the search's from the start state |
| KillerRules.NonzeroBelowMembers | grid/KillerSudokuGrid.java:124-139 | the seen set holds exactly the filled values scanned so far |
| KillerRules.NoRepeatPairwise | grid/KillerSudokuGrid.java:124-139 | the scan finds no repeat exactly when no two filled entries are equal |
| KillerRules.ScanStep | grid/KillerSudokuGrid.java:124-139 | one scan step extends the scanned prefix or finds a repeat |
| KillerRules.Column | grid/KillerSudokuGrid.java:142-157 | column c of the table, top to bottom |
| KillerRules.BoxScanStep | grid/KillerSudokuGrid.java:160-179 | one box-scan step extends the scanned part or finds a repeat |
| KillerRules.CellValues | grid/KillerSudokuGrid.java:292-337 | the values of a cage's cells, in list order |
| KillerRules.SumsWithinPairwise | grid/KillerSudokuGrid.java:292-316 | the running-sum scan accepts exactly when no sum right after a filled cell exceeds the target |
| KillerRules.SumScanStep | grid/KillerSudokuGrid.java:292-316 | one running-sum step extends the sum or exceeds the target |
| KillerRules.DistinctPairwise | grid/KillerSudokuGrid.java:318-337 | the scan counting empty cells finds no repeat exactly when the values are pairwise different |
| KillerRules.DistinctStep | grid/KillerSudokuGrid.java:318-337 | one step of that scan |
| KillerRules.CageValidMeaning | grid/KillerSudokuGrid.java:292-316 | isValid holds exactly when no two filled cells share a value and no running sum after a filled cell exceeds the target |
| KillerRules.CageCompleteMeaning | grid/KillerSudokuGrid.java:318-337 | isComplete holds exactly when the values, empty ones included, are pairwise different and add up to the target |
| KillerRules.DecimalValueOfNat | grid/KillerSudokuGrid.java:90-114 | the decimal text of a cell reads back as its number |
| KillerRules.CellTextPlain | grid/KillerSudokuGrid.java:90-114 | a cell's text holds no comma and no newline |
| KillerRules.LineCounts | grid/KillerSudokuGrid.java:90-114 | the line of a nonempty row has one newline and one comma fewer than its cells |
| KillerRules.AllLineCounts | grid/KillerSudokuGrid.java:90-114 | every line of an n-by-n table has one newline and n − 1 commas |
| KillerRules.RenderCounts | grid/KillerSudokuGrid.java:90-114 | toString of an n-by-n table emits n lines with n − 1 commas each |
| KillerGrid.RowOf | grid/KillerSudokuGrid.java:90-114 | the values of row r of the grid array |
| KillerGrid.AppendCell | grid/KillerSudokuGrid.java:98-108 | one inner pass of toString: the cell's text, then its separator |
| KillerGrid.AppendRow | grid/KillerSudokuGrid.java:96-110 | one outer pass of toString: the row's cells appended |
| KillerGrid.IntList.Add | grid/KillerSudokuGrid.java:274 | partialSol.add appends at the end |
| KillerGrid.IntList.RemoveLast | grid/KillerSudokuGrid.java:278 | partialSol.remove(size − 1) drops the last element |
| KillerGrid.Cage.constructor | grid/KillerSudokuGrid.java:257-263 | a cage with its target, its cells and no combinations |
| KillerGrid.Cage.Spec | grid/KillerSudokuGrid.java:252-256 | the cage's cells and target as the rules see them |
| KillerGrid.Cage.Contents | grid/KillerSudokuGrid.java:292-337 | the values of the cage's cells, in list order |
| KillerGrid.Cage.ContentsOfSnapshot | grid/KillerSudokuGrid.java:292-337 | the cage's values read from the array equal its values in the grid's contents |
| KillerGrid.Cage.IsValid | grid/KillerSudokuGrid.java:292-316 | isValid returns the scan's verdict, which CageValidMeaning characterises |
| KillerGrid.Cage.IsComplete | grid/KillerSudokuGrid.java:318-337 | isComplete returns the scan's verdict, which CageCompleteMeaning characterises |
| KillerGrid.Cage.FindCominations | grid/KillerSudokuGrid.java:265-280 | findCominations appends exactly the arrays Combinations.Found gives, and partialSol comes back unchanged |
| KillerGrid.KillerSudokuGrid.Specs | grid/KillerSudokuGrid.java:22 | the cages as the rules see them, one per cage |
| KillerGrid.KillerSudokuGrid.constructor | grid/KillerSudokuGrid.java:36-37 | an n-by-n grid, n = b², with every cell empty |
| KillerGrid.KillerSudokuGrid.GetCellValue | grid/KillerSudokuGrid.java:226-229 | getCellValue returns the cell's value |
| KillerGrid.KillerSudokuGrid.SetCell | grid/KillerSudokuGrid.java:231-238 | setCell: position -1 empties the cell, any other writes the digit at that position, no other cell changes |
| KillerGrid.KillerSudokuGrid.GetDigitPosition | grid/KillerSudokuGrid.java:240-249 | getDigitPosition is Alphabet.DigitPosition |
| KillerGrid.KillerSudokuGrid.Validate | grid/KillerSudokuGrid.java:116-189 | validate is true exactly when no filled value repeats in a row, a column or a box and every cage is valid |
| KillerGrid.KillerSudokuGrid.CheckRows | grid/KillerSudokuGrid.java:124-139 | the row pass is true exactly when no row repeats a filled value |
| KillerGrid.KillerSudokuGrid.CheckCols | grid/KillerSudokuGrid.java:142-157 | the column pass is true exactly when no column repeats a filled value |
| KillerGrid.KillerSudokuGrid.CheckBoxes | grid/KillerSudokuGrid.java:160-179 | the box pass is true exactly when no box repeats a filled value |
| KillerGrid.KillerSudokuGrid.CheckBox | grid/KillerSudokuGrid.java:162-177 | the body for one box scans its cells row by row |
| KillerGrid.KillerSudokuGrid.CheckCages | grid/KillerSudokuGrid.java:182-186 | the cage pass is true exactly when every cage is valid |
| KillerGrid.KillerSudokuGrid.CheckComplete | grid/KillerSudokuGrid.java:191-210 | checkComplete is true exactly when no cell is empty and every cage is complete |
| KillerGrid.KillerSudokuGrid.ToString | grid/KillerSudokuGrid.java:90-114 | toString is the rows in order; each cell's number, a space when empty, then a comma, or a newline after a row's last cell |
| Combinations.Recorded | grid/KillerSudokuGrid.java:265-280 | the position lists one call records, in recording order |
| Combinations.RecordedBetween | grid/KillerSudokuGrid.java:271-279 | the position lists the loop records for positions startIndex to i − 1 |
| Combinations.Materialize | grid/KillerSudokuGrid.java:268 | the arrays recorded: the partial solution followed by the digits at each position list |
| Combinations.FoundRecorded | grid/KillerSudokuGrid.java:265-280 | the recorded arrays are the partial solution followed by the digits at each list Recorded gives |
| Combinations.FoundSound | grid/KillerSudokuGrid.java:265-280 | every recorded array is the partial solution followed by digits at strictly increasing positions whose sum completes the target |
| Combinations.FoundComplete | grid/KillerSudokuGrid.java:265-280 | with i + 1 in the recursion, a call records every such choice |
| Combinations.RecordedSound | grid/KillerSudokuGrid.java:265-280 | the digits at each recorded position list complete the running sum to the target |
| Combinations.AsWrittenMissesCombination | grid/KillerSudokuGrid.java:276 | as written, digits 1, 2, 3 and target 6 record nothing |
| Combinations.IntendedFindsCombination | grid/KillerSudokuGrid.java:276 | with i + 1, the same search records 1 + 2 + 3 |
| Combinations.IntendedComplete | grid/KillerSudokuGrid.java:265-280 | with i + 1, every increasing position list that completes the target is recorded |
| Combinations.LoopRecorded | grid/KillerSudokuGrid.java:271-279 | what the loop records, the call records |
| Combinations.EmptyRecorded | grid/KillerSudokuGrid.java:266-269 | reaching the target records the partial solution as it stands |
| Backtracking.Search | solver/BackTrackingSolver.java:18-46 | definition: solve's outcome on the grid's values; see Backtracking.SearchSound and Backtracking.SearchComplete |
| Backtracking.Try | solver/BackTrackingSolver.java:28-42 | definition: the outcome of the digit loop from position p; see Backtracking.TryStep and Backtracking.TryFrom |
| Backtracking.CellAt | solver/BackTrackingSolver.java:23-27 | cell i in row-major order is (i / n, i % n) |
| Backtracking.FirstEmpty | solver/BackTrackingSolver.java:23-27 | the first empty cell at or after i in row-major order, or n·n |
| Backtracking.SearchAt | solver/BackTrackingSolver.java:27-42 | when cell i is the first empty one, solve tries the digits in that cell |
| Backtracking.SearchNone | solver/BackTrackingSolver.java:45 | when no cell is empty, solve fails |
| Backtracking.TryStep | solver/BackTrackingSolver.java:28-41 | one digit: write it, then validate, checkComplete and recurse decide |
| Backtracking.FirstEmptyIsFirst | solver/BackTrackingSolver.java:23-27 | the cell solve fills is empty and every cell before it is filled |
| Backtracking.FullNotSolved | solver/BackTrackingSolver.java:45 | a grid without empty cells is never solved, even when valid and complete |
| Backtracking.FilledFromPlace | solver/BackTrackingSolver.java:29 | filling one more cell of a grid that fills v still fills v |
| Backtracking.SearchSound | solver/BackTrackingSolver.java:18-46 | a grid solve returns satisfies validate and checkComplete and keeps every filled cell |
| Backtracking.TryFrom | solver/BackTrackingSolver.java:28-41 | trying from one digit position on succeeds when trying from a later one does |
| Backtracking.StepTowards | solver/BackTrackingSolver.java:29 | the grid with one more cell of the solution filled in |
| Backtracking.NoFirstEmpty | solver/BackTrackingSolver.java:23-27 | a grid with no empty cell in row-major order is full |
| Backtracking.FullFilledFrom | solver/BackTrackingSolver.java:18-46 | a full grid that fills v is v itself |
| Backtracking.SearchComplete | solver/BackTrackingSolver.java:18-46 | if a valid complete full grid w fills v, every grid w extends is valid and v has an empty cell, solve succeeds on v |
| StdGrid.SudokuGrid.constructor | grid/StdSudokuGrid.java:44 | an n-by-n grid of empty cells over the given alphabet |
| StdGrid.SudokuGrid.GetSize | solver/BackTrackingSolver.java:21 | getSize returns n |
| StdGrid.SudokuGrid.GetCellValue | solver/BackTrackingSolver.java:27 | getCellValue returns the cell's value |
| StdGrid.SudokuGrid.SetCell | solver/BackTrackingSolver.java:29 | setCell: position -1 empties the cell, another writes its digit; no other cell changes |
| StdGrid.SudokuGrid.GetDigitPosition | solver/AlgorXSolver.java:128-129 | getDigitPosition is Alphabet.DigitPosition |
| StdGrid.SudokuGrid.Validate | solver/BackTrackingSolver.java:31 | validate is the grid's rules applied to its values |
| StdGrid.SudokuGrid.CheckComplete | solver/BackTrackingSolver.java:32 | checkComplete is the grid's rules applied to its values |
| StdBacktracking.Solve | solver/BackTrackingSolver.java:18-46 | solve's answer is Search on the entry values; success leaves Search's grid and failure the grid as it was |
| StdBacktracking.TryDigits | solver/BackTrackingSolver.java:28-42 | the digit loop equals Try from position 0; a failure empties the cell |
| StdBacktracking.TryDigit | solver/BackTrackingSolver.java:29-37 | one digit written, validated, checked and searched; success keeps the outcome, failure leaves digit p in the cell and hands on to p + 1 |
| KillerBacktracking.SolverRules | solver/KillerBackTrackingSolver.java:31-32 | validate and checkComplete of a Killer grid as rules |
| KillerBacktracking.Solve | solver/KillerBackTrackingSolver.java:20-46 | solve's answer is Search on the entry values with the Killer rules; failure leaves the grid as it was |
| KillerRules.NoRepeatErased | grid/KillerSudokuGrid.java:116-189 | emptying entries never creates a repeated filled value in a row, column or box scan |
| KillerRules.CageValidErased | grid/KillerSudokuGrid.java:292-316 | with no negative values, a valid cage stays valid when cells of it are emptied |
| KillerRules.BoxOkErased | grid/KillerSudokuGrid.java:159-179 | a box without repeats stays so when cells are emptied |
| KillerRules.GridValidErased | grid/KillerSudokuGrid.java:116-189 | with no negative values, validate keeps accepting a grid while cells of it are emptied |
| KillerBacktracking.SearchCompleteKiller | solver/KillerBackTrackingSolver.java:20-46 | with the Killer rules, a valid complete full grid with no negative value that fills v makes solve succeed on v when v has an empty cell |
| KillerBacktracking.FindEmpty | solver/KillerBackTrackingSolver.java:23-27 | the scan returns the first empty cell in row-major order, or n·n |
| KillerBacktracking.TryDigits | solver/KillerBackTrackingSolver.java:28-42 | the digit loop equals Try from position 0; a failure empties the cell |
| KillerBacktracking.TryDigit | solver/KillerBackTrackingSolver.java:29-37 | one digit written, validated, checked and searched; success keeps the outcome, failure leaves digit p in the cell and hands on to p + 1 |

## Left out

- KillerGrid.KillerSudokuGrid.constructor: accepts any cages that lie inside the grid. initGrid keeps a cell listed by a second cage with the first cage only, and leaves a cell that no cage lists as null, so that getCellValue, validate, checkComplete and toString throw on it. In the model a shared cell counts in every cage that lists it, and a cell in no cage reads as empty (0); neither the first-cage-wins rule nor the null-cell exception is modelled.
- KillerBacktracking.SearchCompleteKiller: asks that the solution hold no negative value, because a negative digit makes a running cage sum grow when its cell is emptied.
- Backtracking.SearchComplete: for the standard grid, whose validate is abstract and modelled as a parameter, completeness holds only under the hypothesis ErasuresValid; for the Killer rules SearchCompleteKiller discharges it.
- Reading and writing files (`initGrid`, `outputGrid`) and console output
  are left out. Grids are built by the constructors from a box size, an
  alphabet and cages.
- Java's 32-bit `int` is modelled as unbounded `int`. For grids that fit in
  memory no index computed here comes near overflow.
- Layout.BoxColumn: the box index is computed with `Math.pow` on doubles;
  the Killer solver also adds a small epsilon before truncating. The model
  uses integer powers of `b`, and Layout.BoxColumnOfRowId gives their closed
  form. Floating-point rounding is not modelled.
- The `rowInclusion` array of the Algorithm X matrix is written but never
  read by the solver, so it is left out.
- `printCombinations` and the "Found solution" console line in
  `findCominations` are left out.
- KillerSudokuGrid.validate takes the box size as `(int)Math.sqrt(n)`. The
  model uses the grid's `boxSize` field, which the constructor ties to
  n = b².
- The cages are lists of cell coordinates. A cell keeps its cage in a
  private field that no method reads; `getCage`/`getCages`,
  `getPossibleDigits` and `findCombinations` (without the typo) are not
  defined in these files. The solver therefore takes each cage's possible digits as
  inputs: `Puzzle.initial` for `initMatrix` and `Puzzle.possible` for
  `deleteRowsByCage`. KillerAdvancedModel.CageOf stands for `getCage` and
  takes the first cage that lists the cell.
- Status Crashed stands for the two ways Killer performCalcs can throw: the
  cast of a header to `Constraint` when the chosen column has no node, and
  a `null` cage for a cell no cage holds. The exception itself is not
  modelled.
- The abstract `SudokuGrid` class is not part of this model. Its
  `validate` and `checkComplete` are a `Rules` parameter of
  StdGrid.SudokuGrid. StdSudokuGrid's own `validate` and `toString` are
  stubs that return `false` and `""`; the standard backtracking solver is
  proved for any rules, those stubs included.
- DancingLinksModel.DLSearch, KillerAdvancedModel.KSearch: the recursion
  carries a fuel bound, LinkedMatrix.Depth(n) = 4n² + 1 nested calls
  (one more than the number of columns). The source has no such bound. The
  number of active columns does not work as a termination measure, because
  resetConstraintsByRow reactivates columns. The link structure is proved
  to come back only from the states KillerAdvancedReset.RemoveReset
  describes, not from every state the search reaches. The model says nothing about searches deeper than
  the bound, where it reports failure.
- DancingLinksSolver.PerformCalcs, KillerAdvancedSolver.PerformCalcs: they
  take the same fuel parameter and are proved equal to DLSearch and
  KSearch under it.
- LinkedMatrix.Depth: the bound is one more than the number of columns.
  That no search of the source nests deeper is not proved.
- KillerAdvancedReset.RemoveReset: the undo of a row is proved only from
  a state in which every row met in x's four columns has all four nodes on
  their lists and is not constraint-locked, and the column lists are
  exactly the lists R given. initMatrix builds such a state (the rows it
  cage-locks are off every list). Whether every state in which
  performCalcs removes a row is of that kind, after earlier removals and
  deleteRowsByCage, is not proved.
- DancingLinksModel.SolveFilled, KillerAdvancedModel.SolveFilled,
  DancingLinksModel.KeptFilled, KillerAdvancedModel.KeptFilled,
  DancingLinksSolver.Solve, KillerAdvancedSolver.Solve: on success every
  cell holds a digit of the alphabet. The model does not prove that the
  givens are kept, or that the result is a Sudoku solution. Keeping the
  givens needs a ring invariant over every state of the search, which the
  model does not maintain, so keeping the givens is not proved. Killer's
  initMatrix does not remove the rows of the givens.
- AlgorXSolver.Solve, AlgorXSearch.InitFrom, DancingLinks.DLMatrix.InitGivens:
  they require every filled cell to hold a digit of the alphabet. On any
  other value the source's `getDigitPosition` returns -1, and the computed
  row is the previous cell's last row, or index -1 at cell (0, 0). That
  behaviour is not modelled.
- KillerGrid.KillerSudokuGrid.constructor, StdGrid.SudokuGrid.constructor,
  Backtracking.DigitSet, Cells.Digits: the alphabet must not contain 0. The
  source reads any integer as a digit. A digit 0 written by `setCell` leaves
  the cell empty, so the backtracking search would fill the same cell again
  without end.
- StdBacktracking.Solve, KillerBacktracking.Solve: they state the outcome
  exactly, as the search function Search. Search terminates on the number
  of empty cells, which each recursive call lowers by one.

## Findings

| source | as written | input that shows it | evidently intended | confidence | as-written member | corrected member |
|---|---|---|---|---|---|---|
| solver/AlgorXSolver.java:205-273 | resetConstraintsByRow runs its four blocks as separate `if`s. The first block sets a row's entries back, and the later blocks then see the entries set and fire too, so each count is raised up to four times. | b = n = 1: removeConstraints(0) then resetConstraintsByRow(0) leaves count 4 on column 0, where the constructor set 1 | each row is counted up once, undoing removeConstraints exactly (an `else if` chain) | not executed | AlgorXModel.ResetOverCounts | AlgorX.AlgXMatrix.RestoreConstraints, AlgorXModel.Undo |
| grid/KillerSudokuGrid.java:276 | findCominations recurses with start index `startIndex + i + 1` | digits 1, 2, 3 and target 6: position 0 recurses from 1; position 1 then recurses from 1 + 1 + 1 = 3 and skips digit 3, so nothing is recorded | recursion from `i + 1`, so every increasing choice of positions is tried | not executed | Combinations.AsWrittenMissesCombination | Combinations.IntendedFindsCombination, Combinations.IntendedComplete |
