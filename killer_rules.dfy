/**
 * The rules a Killer Sudoku grid is checked against, stated on cell values
 * (0 is an empty cell): no repeated filled value in a row, a column or a
 * b-by-b box, and the cage rules on the values of each cage's cells.
 */
module KillerRules {
  import opened Cells
  import Layout

  type Coord = (int, int)

  // ---------------------------------------------------------------------
  // Groups of cells
  // ---------------------------------------------------------------------

  /** The filled values among the first k entries of s. */
  function NonzeroBelow(s: seq<int>, k: int): set<int>
    requires 0 <= k <= |s|
    decreases k
  {
    if k == 0 then {} else NonzeroBelow(s, k - 1) + (if s[k - 1] != 0 then {s[k - 1]} else {})
  }

  /**
   * Scanning the first k entries of s with a set of seen values, as the
   * validators do, never meets a filled value already seen.
   */
  predicate NoRepeatBelow(s: seq<int>, k: int)
    requires 0 <= k <= |s|
    decreases k
  {
    k == 0 || (NoRepeatBelow(s, k - 1) && (s[k - 1] == 0 || s[k - 1] !in NonzeroBelow(s, k - 1)))
  }

  /** No filled value occurs twice in s (empty cells are ignored). */
  predicate NoRepeatedNonzero(s: seq<int>)
  {
    NoRepeatBelow(s, |s|)
  }

  /** The seen set holds exactly the filled values scanned so far. */
  lemma {:induction false} NonzeroBelowMembers(s: seq<int>, k: int)
    requires 0 <= k <= |s|
    ensures forall x :: x in NonzeroBelow(s, k) <==> exists i :: 0 <= i < k && s[i] != 0 && s[i] == x
    decreases k
  {
    if k > 0 {
      NonzeroBelowMembers(s, k - 1);
    }
  }

  /** A scan with no repeat has none in any shorter prefix either. */
  lemma {:induction false} NoRepeatPrefix(s: seq<int>, k: int, m: int)
    requires 0 <= k <= m <= |s| && NoRepeatBelow(s, m)
    ensures NoRepeatBelow(s, k)
    decreases m
  {
    if k < m {
      NoRepeatPrefix(s, k, m - 1);
    }
  }

  /** The scan finds no repeat exactly when no two filled entries of the prefix are equal. */
  lemma {:induction false} NoRepeatPairwise(s: seq<int>, k: int)
    requires 0 <= k <= |s|
    ensures NoRepeatBelow(s, k) <==> forall i, j :: 0 <= i < j < k && s[i] != 0 ==> s[i] != s[j]
    decreases k
  {
    if k > 0 {
      NoRepeatPairwise(s, k - 1);
      NonzeroBelowMembers(s, k - 1);
      if NoRepeatBelow(s, k) {
        forall i, j | 0 <= i < j < k && s[i] != 0
          ensures s[i] != s[j]
        {
          if j == k - 1 {
            assert s[i] in NonzeroBelow(s, k - 1);
          }
        }
      } else if NoRepeatBelow(s, k - 1) {
        var i :| 0 <= i < k - 1 && s[i] != 0 && s[i] == s[k - 1];
        assert !(forall i', j :: 0 <= i' < j < k && s[i'] != 0 ==> s[i'] != s[j]);
      }
    }
  }

  /**
   * One step of a duplicate scan with a set of seen values: the step extends
   * the scanned prefix, or a repeat has been found.
   */
  lemma ScanStep(s: seq<int>, k: int)
    requires 0 <= k < |s|
    ensures s[k] == 0 ==> NonzeroBelow(s, k + 1) == NonzeroBelow(s, k)
    ensures s[k] == 0 ==> (NoRepeatBelow(s, k + 1) <==> NoRepeatBelow(s, k))
    ensures s[k] != 0 ==> NonzeroBelow(s, k + 1) == NonzeroBelow(s, k) + {s[k]}
    ensures s[k] != 0 && s[k] !in NonzeroBelow(s, k) ==> (NoRepeatBelow(s, k + 1) <==> NoRepeatBelow(s, k))
    ensures s[k] != 0 && s[k] in NonzeroBelow(s, k) ==> !NoRepeatedNonzero(s)
  {
    if s[k] != 0 && s[k] in NonzeroBelow(s, k) && NoRepeatedNonzero(s) {
      NoRepeatPrefix(s, k + 1, |s|);
    }
  }

  /** Column c of an n-by-n table, top to bottom. */
  function Column(v: Values, n: int, c: int): (col: seq<int>)
    requires IsGrid(v, n) && 0 <= c < n
    ensures |col| == n && forall r :: 0 <= r < n ==> col[r] == v[r][c]
  {
    seq(n, r requires 0 <= r < n => v[r][c])
  }

  /** The value at offset (i, j) of box (br, bc) of an n-by-n table (n = b*b): row b*br + i, column b*bc + j. */
  function BoxCell(v: Values, b: int, n: int, br: int, bc: int, i: int, j: int): int
    requires Layout.IsDims(b, n) && IsGrid(v, n)
    requires 0 <= br < b && 0 <= bc < b && 0 <= i < b && 0 <= j < b
  {
    Layout.BlockPart(b, n, br, i);
    Layout.BlockPart(b, n, bc, j);
    v[b * br + i][b * bc + j]
  }

  /** Offset (i, j) of a box comes before offset (c, d) in the box scan: row by row, left to right. */
  predicate Before(i: int, j: int, c: int, d: int)
  {
    i < c || (i == c && j < d)
  }

  /** The filled values of box (br, bc) at the offsets the scan visits before (c, d). */
  function BoxSeen(v: Values, b: int, n: int, br: int, bc: int, c: int, d: int): set<int>
    requires Layout.IsDims(b, n) && IsGrid(v, n) && 0 <= br < b && 0 <= bc < b
  {
    set i, j | 0 <= i < b && 0 <= j < b && Before(i, j, c, d) && BoxCell(v, b, n, br, bc, i, j) != 0 ::
      BoxCell(v, b, n, br, bc, i, j)
  }

  /** No filled value of box (br, bc) repeats among the offsets the scan visits before (c, d). */
  predicate BoxNoRepeatBefore(v: Values, b: int, n: int, br: int, bc: int, c: int, d: int)
    requires Layout.IsDims(b, n) && IsGrid(v, n) && 0 <= br < b && 0 <= bc < b
  {
    forall i, j, i', j' ::
      0 <= i < b && 0 <= j < b && 0 <= i' < b && 0 <= j' < b &&
      Before(i, j, i', j') && Before(i', j', c, d) && BoxCell(v, b, n, br, bc, i, j) != 0 ==>
        BoxCell(v, b, n, br, bc, i, j) != BoxCell(v, b, n, br, bc, i', j')
  }

  /** No filled value repeats in box (br, bc). */
  predicate BoxOk(v: Values, b: int, n: int, br: int, bc: int)
    requires Layout.IsDims(b, n) && IsGrid(v, n) && 0 <= br < b && 0 <= bc < b
  {
    BoxNoRepeatBefore(v, b, n, br, bc, b, 0)
  }

  /** One step of the box scan: the scanned part extends, or a repeat has been found. */
  lemma BoxScanStep(v: Values, b: int, n: int, br: int, bc: int, c: int, d: int)
    requires Layout.IsDims(b, n) && IsGrid(v, n) && 0 <= br < b && 0 <= bc < b
    requires 0 <= c < b && 0 <= d < b
    ensures BoxCell(v, b, n, br, bc, c, d) == 0 ==>
              BoxSeen(v, b, n, br, bc, c, d + 1) == BoxSeen(v, b, n, br, bc, c, d) &&
              (BoxNoRepeatBefore(v, b, n, br, bc, c, d + 1) <==> BoxNoRepeatBefore(v, b, n, br, bc, c, d))
    ensures BoxCell(v, b, n, br, bc, c, d) != 0 ==>
              BoxSeen(v, b, n, br, bc, c, d + 1) == BoxSeen(v, b, n, br, bc, c, d) + {BoxCell(v, b, n, br, bc, c, d)}
    ensures BoxCell(v, b, n, br, bc, c, d) !in BoxSeen(v, b, n, br, bc, c, d) ==>
              (BoxNoRepeatBefore(v, b, n, br, bc, c, d + 1) <==> BoxNoRepeatBefore(v, b, n, br, bc, c, d))
    ensures BoxCell(v, b, n, br, bc, c, d) in BoxSeen(v, b, n, br, bc, c, d) ==> !BoxOk(v, b, n, br, bc)
  {
    var x := BoxCell(v, b, n, br, bc, c, d);
    if x in BoxSeen(v, b, n, br, bc, c, d) {
      var i, j :| 0 <= i < b && 0 <= j < b && Before(i, j, c, d) && BoxCell(v, b, n, br, bc, i, j) != 0 &&
                  BoxCell(v, b, n, br, bc, i, j) == x;
      assert Before(c, d, b, 0);
    }
    if x !in BoxSeen(v, b, n, br, bc, c, d) && BoxNoRepeatBefore(v, b, n, br, bc, c, d) {
      forall i, j, i', j' |
        0 <= i < b && 0 <= j < b && 0 <= i' < b && 0 <= j' < b &&
        Before(i, j, i', j') && Before(i', j', c, d + 1) && BoxCell(v, b, n, br, bc, i, j) != 0
        ensures BoxCell(v, b, n, br, bc, i, j) != BoxCell(v, b, n, br, bc, i', j')
      {
        if i' == c && j' == d {
          assert BoxCell(v, b, n, br, bc, i, j) in BoxSeen(v, b, n, br, bc, c, d);
        }
      }
    }
    var s1, s0 := BoxSeen(v, b, n, br, bc, c, d + 1), BoxSeen(v, b, n, br, bc, c, d);
    if x == 0 {
      forall y | y in s1
        ensures y in s0
      {
        var i, j :| 0 <= i < b && 0 <= j < b && Before(i, j, c, d + 1) && BoxCell(v, b, n, br, bc, i, j) != 0 &&
                    BoxCell(v, b, n, br, bc, i, j) == y;
        assert Before(i, j, c, d);
      }
    } else {
      forall y | y in s1
        ensures y in s0 + {x}
      {
        var i, j :| 0 <= i < b && 0 <= j < b && Before(i, j, c, d + 1) && BoxCell(v, b, n, br, bc, i, j) != 0 &&
                    BoxCell(v, b, n, br, bc, i, j) == y;
        if Before(i, j, c, d) {
          assert y in s0;
        }
      }
      assert x in s1;
    }
  }

  /** The end of one box row of the scan is the start of the next. */
  lemma BoxRowEnd(v: Values, b: int, n: int, br: int, bc: int, c: int)
    requires Layout.IsDims(b, n) && IsGrid(v, n) && 0 <= br < b && 0 <= bc < b && 0 <= c < b
    ensures BoxSeen(v, b, n, br, bc, c, b) == BoxSeen(v, b, n, br, bc, c + 1, 0)
    ensures BoxNoRepeatBefore(v, b, n, br, bc, c, b) <==> BoxNoRepeatBefore(v, b, n, br, bc, c + 1, 0)
  {
    assert forall i, j :: 0 <= j < b ==> (Before(i, j, c, b) <==> Before(i, j, c + 1, 0));
  }

  predicate RowsOk(v: Values, n: int)
    requires IsGrid(v, n)
  {
    forall r :: 0 <= r < n ==> NoRepeatedNonzero(v[r])
  }

  predicate ColsOk(v: Values, n: int)
    requires IsGrid(v, n)
  {
    forall c :: 0 <= c < n ==> NoRepeatedNonzero(Column(v, n, c))
  }

  predicate BoxesOk(v: Values, b: int, n: int)
    requires Layout.IsDims(b, n) && IsGrid(v, n)
  {
    forall br, bc :: 0 <= br < b && 0 <= bc < b ==> BoxOk(v, b, n, br, bc)
  }

  // ---------------------------------------------------------------------
  // Cages
  // ---------------------------------------------------------------------

  /** Every coordinate lies in an n-by-n grid. */
  predicate InGrid(cells: seq<Coord>, n: int)
  {
    forall i :: 0 <= i < |cells| ==> 0 <= cells[i].0 < n && 0 <= cells[i].1 < n
  }

  /** The values of the listed cells, in list order. */
  function CellValues(v: Values, n: int, cells: seq<Coord>): (vals: seq<int>)
    requires IsGrid(v, n) && InGrid(cells, n)
    ensures |vals| == |cells|
    ensures forall i :: 0 <= i < |cells| ==> vals[i] == v[cells[i].0][cells[i].1]
  {
    seq(|cells|, i requires 0 <= i < |cells| => v[cells[i].0][cells[i].1])
  }

  /** Sum of the first k entries of s. */
  function SumBelow(s: seq<int>, k: int): int
    requires k <= |s|
    decreases k
  {
    if k <= 0 then 0 else SumBelow(s, k - 1) + s[k - 1]
  }

  /** Scanning the first k cells, every running sum taken right after a filled cell stays within target. */
  predicate SumsWithinBelow(vals: seq<int>, target: int, k: int)
    requires 0 <= k <= |vals|
    decreases k
  {
    k == 0 || (SumsWithinBelow(vals, target, k - 1) && (vals[k - 1] == 0 || SumBelow(vals, k) <= target))
  }

  /** Every running sum taken right after a filled cell stays within target. */
  predicate SumsWithin(vals: seq<int>, target: int)
  {
    SumsWithinBelow(vals, target, |vals|)
  }

  /** A scan whose sums stay within the target does so on every shorter prefix. */
  lemma {:induction false} SumsWithinPrefix(vals: seq<int>, target: int, k: int, m: int)
    requires 0 <= k <= m <= |vals| && SumsWithinBelow(vals, target, m)
    ensures SumsWithinBelow(vals, target, k)
    decreases m
  {
    if k < m {
      SumsWithinPrefix(vals, target, k, m - 1);
    }
  }

  /** The running-sum scan accepts exactly when no sum right after a filled cell exceeds the target. */
  lemma {:induction false} SumsWithinPairwise(vals: seq<int>, target: int, k: int)
    requires 0 <= k <= |vals|
    ensures SumsWithinBelow(vals, target, k) <==>
              forall j :: 1 <= j <= k && vals[j - 1] != 0 ==> SumBelow(vals, j) <= target
    decreases k
  {
    if k > 0 {
      SumsWithinPairwise(vals, target, k - 1);
      if SumsWithinBelow(vals, target, k) {
        forall j | 1 <= j <= k && vals[j - 1] != 0
          ensures SumBelow(vals, j) <= target
        {
        }
      } else if SumsWithinBelow(vals, target, k - 1) {
        assert vals[k - 1] != 0 && SumBelow(vals, k) > target;
      } else {
        var j :| 1 <= j <= k - 1 && vals[j - 1] != 0 && SumBelow(vals, j) > target;
      }
    }
  }

  /** One step of the running-sum scan: the sum extends, or a filled cell has taken it past the target. */
  lemma SumScanStep(vals: seq<int>, target: int, k: int)
    requires 0 <= k < |vals|
    ensures SumBelow(vals, k + 1) == SumBelow(vals, k) + vals[k]
    ensures vals[k] != 0 && SumBelow(vals, k + 1) > target ==> !SumsWithin(vals, target)
    ensures vals[k] == 0 || SumBelow(vals, k + 1) <= target ==>
              (SumsWithinBelow(vals, target, k + 1) <==> SumsWithinBelow(vals, target, k))
  {
    if vals[k] != 0 && SumBelow(vals, k + 1) > target && SumsWithin(vals, target) {
      SumsWithinPrefix(vals, target, k + 1, |vals|);
    }
  }

  /** Cage.isValid on the cage's values. */
  predicate CageValid(vals: seq<int>, target: int)
  {
    NoRepeatedNonzero(vals) && SumsWithin(vals, target)
  }

  /** The values among the first k entries of s. */
  function ValuesBelow(s: seq<int>, k: int): set<int>
    requires 0 <= k <= |s|
    decreases k
  {
    if k == 0 then {} else ValuesBelow(s, k - 1) + {s[k - 1]}
  }

  /** Scanning the first k entries of s, empty cells included, never meets a value already seen. */
  predicate DistinctBelow(s: seq<int>, k: int)
    requires 0 <= k <= |s|
    decreases k
  {
    k == 0 || (DistinctBelow(s, k - 1) && s[k - 1] !in ValuesBelow(s, k - 1))
  }

  /** No value occurs twice in s (empty cells count as a value). */
  predicate AllDistinct(s: seq<int>)
  {
    DistinctBelow(s, |s|)
  }

  /** The seen set holds exactly the values scanned so far. */
  lemma {:induction false} ValuesBelowMembers(s: seq<int>, k: int)
    requires 0 <= k <= |s|
    ensures forall x :: x in ValuesBelow(s, k) <==> exists i :: 0 <= i < k && s[i] == x
    decreases k
  {
    if k > 0 {
      ValuesBelowMembers(s, k - 1);
    }
  }

  /** A scan with no repeat has none in any shorter prefix either. */
  lemma {:induction false} DistinctPrefix(s: seq<int>, k: int, m: int)
    requires 0 <= k <= m <= |s| && DistinctBelow(s, m)
    ensures DistinctBelow(s, k)
    decreases m
  {
    if k < m {
      DistinctPrefix(s, k, m - 1);
    }
  }

  /** The scan finds no repeat exactly when the entries of the prefix are pairwise different. */
  lemma {:induction false} DistinctPairwise(s: seq<int>, k: int)
    requires 0 <= k <= |s|
    ensures DistinctBelow(s, k) <==> forall i, j :: 0 <= i < j < k ==> s[i] != s[j]
    decreases k
  {
    if k > 0 {
      DistinctPairwise(s, k - 1);
      ValuesBelowMembers(s, k - 1);
      if DistinctBelow(s, k) {
        forall i, j | 0 <= i < j < k
          ensures s[i] != s[j]
        {
          if j == k - 1 {
            assert s[i] in ValuesBelow(s, k - 1);
          }
        }
      } else if DistinctBelow(s, k - 1) {
        var i :| 0 <= i < k - 1 && s[i] == s[k - 1];
        assert !(forall i', j :: 0 <= i' < j < k ==> s[i'] != s[j]);
      }
    }
  }

  /** One step of the duplicate scan that counts empty cells too. */
  lemma DistinctStep(s: seq<int>, k: int)
    requires 0 <= k < |s|
    ensures ValuesBelow(s, k + 1) == ValuesBelow(s, k) + {s[k]}
    ensures s[k] !in ValuesBelow(s, k) ==> (DistinctBelow(s, k + 1) <==> DistinctBelow(s, k))
    ensures s[k] in ValuesBelow(s, k) ==> !AllDistinct(s)
  {
    if s[k] in ValuesBelow(s, k) && AllDistinct(s) {
      DistinctPrefix(s, k + 1, |s|);
    }
  }

  /** Cage.isComplete on the cage's values. */
  predicate CageComplete(vals: seq<int>, target: int)
  {
    AllDistinct(vals) && SumBelow(vals, |vals|) == target
  }

  /**
   * isValid's meaning: a cage is valid exactly when no two of its filled
   * cells share a value and no running sum, in cell order, taken right after
   * a filled cell exceeds the target.
   */
  lemma CageValidMeaning(vals: seq<int>, target: int)
    ensures CageValid(vals, target) <==>
              (forall i, j :: 0 <= i < j < |vals| && vals[i] != 0 ==> vals[i] != vals[j]) &&
              (forall j :: 1 <= j <= |vals| && vals[j - 1] != 0 ==> SumBelow(vals, j) <= target)
  {
    NoRepeatPairwise(vals, |vals|);
    SumsWithinPairwise(vals, target, |vals|);
  }

  /**
   * isComplete's meaning: a cage is complete exactly when its cell values,
   * empty cells included, are pairwise different and add up to the target.
   */
  lemma CageCompleteMeaning(vals: seq<int>, target: int)
    ensures CageComplete(vals, target) <==>
              (forall i, j :: 0 <= i < j < |vals| ==> vals[i] != vals[j]) && SumBelow(vals, |vals|) == target
  {
    DistinctPairwise(vals, |vals|);
  }

  /** A cage as the rules see it: its cells, in insertion order, and its target sum. */
  datatype CageSpec = CageSpec(cells: seq<Coord>, target: int)

  /** Every cage lies in an n-by-n grid. */
  predicate CagesInGrid(cages: seq<CageSpec>, n: int)
  {
    forall k :: 0 <= k < |cages| ==> InGrid(cages[k].cells, n)
  }

  /** validate: no repeat in a row, a column or a box, and every cage valid. */
  predicate GridValid(v: Values, b: int, n: int, cages: seq<CageSpec>)
    requires Layout.IsDims(b, n) && IsGrid(v, n) && CagesInGrid(cages, n)
  {
    RowsOk(v, n) && ColsOk(v, n) && BoxesOk(v, b, n) &&
    forall k :: 0 <= k < |cages| ==> CageValid(CellValues(v, n, cages[k].cells), cages[k].target)
  }

  /** checkComplete: no empty cell and every cage complete. */
  predicate GridComplete(v: Values, n: int, cages: seq<CageSpec>)
    requires IsGrid(v, n) && CagesInGrid(cages, n)
  {
    (forall r, c :: 0 <= r < n && 0 <= c < n ==> v[r][c] != 0) &&
    forall k :: 0 <= k < |cages| ==> CageComplete(CellValues(v, n, cages[k].cells), cages[k].target)
  }

  // ---------------------------------------------------------------------
  // Emptying cells
  // ---------------------------------------------------------------------

  /** t is s with some entries emptied. */
  predicate Erased(t: seq<int>, s: seq<int>)
  {
    |t| == |s| && forall i :: 0 <= i < |s| ==> t[i] == s[i] || t[i] == 0
  }

  /** Emptying entries cannot create a repeated filled value. */
  lemma NoRepeatErased(t: seq<int>, s: seq<int>)
    requires Erased(t, s) && NoRepeatedNonzero(s)
    ensures NoRepeatedNonzero(t)
  {
    NoRepeatPairwise(s, |s|);
    NoRepeatPairwise(t, |t|);
  }

  /** With no negative entries, emptying entries never raises a running sum. */
  lemma {:induction false} SumBelowErased(t: seq<int>, s: seq<int>, k: int)
    requires Erased(t, s) && 0 <= k <= |s| && forall i :: 0 <= i < |s| ==> s[i] >= 0
    ensures SumBelow(t, k) <= SumBelow(s, k)
    decreases k
  {
    if k > 0 {
      SumBelowErased(t, s, k - 1);
    }
  }

  /** With no negative entries, a cage stays valid when some of its cells are emptied. */
  lemma CageValidErased(t: seq<int>, s: seq<int>, target: int)
    requires Erased(t, s) && CageValid(s, target) && forall i :: 0 <= i < |s| ==> s[i] >= 0
    ensures CageValid(t, target)
  {
    NoRepeatErased(t, s);
    SumsWithinPairwise(s, target, |s|);
    SumsWithinPairwise(t, target, |t|);
    forall j | 1 <= j <= |t| && t[j - 1] != 0
      ensures SumBelow(t, j) <= target
    {
      SumBelowErased(t, s, j);
    }
  }

  /** A box stays free of repeats when some of its cells are emptied. */
  lemma BoxOkErased(u: Values, w: Values, b: int, n: int, br: int, bc: int)
    requires Layout.IsDims(b, n) && Extends(w, u, n) && 0 <= br < b && 0 <= bc < b && BoxOk(w, b, n, br, bc)
    ensures BoxOk(u, b, n, br, bc)
  {
    forall i, j | 0 <= i < b && 0 <= j < b
      ensures BoxCell(u, b, n, br, bc, i, j) == 0 || BoxCell(u, b, n, br, bc, i, j) == BoxCell(w, b, n, br, bc, i, j)
    {
      Layout.BlockPart(b, n, br, i);
      Layout.BlockPart(b, n, bc, j);
    }
  }

  /**
   * validate keeps accepting a grid while cells of it are emptied, as long
   * as no cell holds a negative value: every row, column and box rule
   * compares filled cells pairwise, and a running cage sum only shrinks.
   */
  lemma GridValidErased(u: Values, w: Values, b: int, n: int, cages: seq<CageSpec>)
    requires Layout.IsDims(b, n) && Extends(w, u, n) && CagesInGrid(cages, n)
    requires forall r, c :: 0 <= r < n && 0 <= c < n ==> w[r][c] >= 0
    requires GridValid(w, b, n, cages)
    ensures GridValid(u, b, n, cages)
  {
    forall r | 0 <= r < n
      ensures NoRepeatedNonzero(u[r])
    {
      NoRepeatErased(u[r], w[r]);
    }
    forall c | 0 <= c < n
      ensures NoRepeatedNonzero(Column(u, n, c))
    {
      NoRepeatErased(Column(u, n, c), Column(w, n, c));
    }
    forall br, bc | 0 <= br < b && 0 <= bc < b
      ensures BoxOk(u, b, n, br, bc)
    {
      BoxOkErased(u, w, b, n, br, bc);
    }
    forall k | 0 <= k < |cages|
      ensures CageValid(CellValues(u, n, cages[k].cells), cages[k].target)
    {
      CageValidErased(CellValues(u, n, cages[k].cells), CellValues(w, n, cages[k].cells), cages[k].target);
    }
  }

  // ---------------------------------------------------------------------
  // Rendering
  // ---------------------------------------------------------------------

  /** Decimal digits of a natural number, most significant first. */
  function NatToString(x: nat): string
    decreases x
  {
    if x < 10 then [DigitChar(x)] else NatToString(x / 10) + [DigitChar(x % 10)]
  }

  function DigitChar(d: int): char
    requires 0 <= d < 10
  {
    (48 + d) as char
  }

  /** Integer.toString: decimal digits with a leading minus sign for negatives. */
  function IntToString(x: int): string
  {
    if x < 0 then "-" + NatToString(-x) else NatToString(x)
  }

  /** Value of a string of decimal digits. */
  function DecimalValue(s: string): int
    decreases |s|
  {
    if |s| == 0 then 0 else 10 * DecimalValue(s[..|s| - 1]) + (s[|s| - 1] as int - 48)
  }

  /** Reading back the decimal digits gives the number. */
  lemma {:induction false} DecimalValueOfNat(x: nat)
    ensures DecimalValue(NatToString(x)) == x
    ensures forall i :: 0 <= i < |NatToString(x)| ==> '0' <= NatToString(x)[i] <= '9'
    decreases x
  {
    if x >= 10 {
      DecimalValueOfNat(x / 10);
      var s := NatToString(x);
      assert s[..|s| - 1] == NatToString(x / 10);
    }
  }

  /** A cell as toString shows it: a space for an empty cell, else its number. */
  function CellText(x: int): string
  {
    if x == 0 then " " else IntToString(x)
  }

  /** Separator after column c: a newline after the last column, else a comma. */
  function Separator(c: int, n: int): string
  {
    if c == n - 1 then "\n" else ","
  }

  /** The concatenation of the first k parts. */
  function Concat(parts: seq<string>, k: int): string
    requires k <= |parts|
    decreases k
  {
    if k <= 0 then "" else Concat(parts, k - 1) + parts[k - 1]
  }

  /** Appending part k extends the concatenation of the first k parts. */
  lemma ConcatStep(parts: seq<string>, k: int)
    requires 0 <= k < |parts|
    ensures Concat(parts, k + 1) == Concat(parts, k) + parts[k]
  {
  }

  lemma AppendAssoc(a: string, b: string, c: string)
    ensures (a + b) + c == a + (b + c)
  {
  }

  /** The text toString emits for each cell of a row: the cell, then its separator. */
  function CellPieces(row: seq<int>): (pieces: seq<string>)
    ensures |pieces| == |row|
    ensures forall c :: 0 <= c < |row| ==> pieces[c] == CellText(row[c]) + Separator(c, |row|)
  {
    seq(|row|, c requires 0 <= c < |row| => CellText(row[c]) + Separator(c, |row|))
  }

  /** The line toString emits for one row. */
  function LineText(row: seq<int>): string
  {
    Concat(CellPieces(row), |row|)
  }

  /** The lines of a table, one per row. */
  function Lines(v: Values): (lines: seq<string>)
    ensures |lines| == |v|
    ensures forall r :: 0 <= r < |v| ==> lines[r] == LineText(v[r])
  {
    seq(|v|, r requires 0 <= r < |v| => LineText(v[r]))
  }

  /** toString of a table: its lines, top to bottom. */
  function Render(v: Values): string
  {
    Concat(Lines(v), |v|)
  }

  /** Number of occurrences of ch in s. */
  function Occurrences(s: string, ch: char): nat
    decreases |s|
  {
    if |s| == 0 then 0 else Occurrences(s[..|s| - 1], ch) + (if s[|s| - 1] == ch then 1 else 0)
  }

  /** Occurrence counts add up over a concatenation. */
  lemma {:induction false} OccurrencesConcat(a: string, b: string, ch: char)
    ensures Occurrences(a + b, ch) == Occurrences(a, ch) + Occurrences(b, ch)
    decreases |b|
  {
    if |b| > 0 {
      assert (a + b)[..|a + b| - 1] == a + b[..|b| - 1];
      OccurrencesConcat(a, b[..|b| - 1], ch);
    } else {
      assert a + b == a;
    }
  }

  /** A character that does not occur in s is counted zero times. */
  lemma {:induction false} OccurrencesNone(s: string, ch: char)
    requires forall i :: 0 <= i < |s| ==> s[i] != ch
    ensures Occurrences(s, ch) == 0
    decreases |s|
  {
    if |s| > 0 {
      OccurrencesNone(s[..|s| - 1], ch);
    }
  }

  /** A cell's text holds no comma and no newline. */
  lemma CellTextPlain(x: int)
    ensures Occurrences(CellText(x), '\n') == 0 && Occurrences(CellText(x), ',') == 0
  {
    if x != 0 {
      var m: nat := if x < 0 then -x else x;
      DecimalValueOfNat(m);
      var t := CellText(x);
      assert forall i :: 0 <= i < |t| ==> t[i] == '-' || '0' <= t[i] <= '9';
      OccurrencesNone(t, '\n');
      OccurrencesNone(t, ',');
    }
  }

  /** The count in a concatenation is the count in all but the last part plus the count in the last. */
  lemma ConcatLast(parts: seq<string>, k: int, ch: char)
    requires 0 < k <= |parts|
    ensures Occurrences(Concat(parts, k), ch) == Occurrences(Concat(parts, k - 1), ch) + Occurrences(parts[k - 1], ch)
  {
    OccurrencesConcat(Concat(parts, k - 1), parts[k - 1], ch);
  }

  /** k copies of m added up. */
  function Times(k: int, m: int): int
    decreases k
  {
    if k <= 0 then 0 else Times(k - 1, m) + m
  }

  /** k copies of m add up to k * m. */
  lemma {:induction false} TimesIsProduct(k: nat, m: int)
    ensures Times(k, m) == k * m
    decreases k
  {
    if k > 0 {
      TimesIsProduct(k - 1, m);
      assert (k - 1) * m + m == k * m;
    }
  }

  /** Parts that each hold ch m times concatenate to k copies of m occurrences. */
  lemma {:induction false} ConcatUniform(parts: seq<string>, k: int, ch: char, m: int)
    requires 0 <= k <= |parts|
    requires forall i :: 0 <= i < k ==> Occurrences(parts[i], ch) == m
    ensures Occurrences(Concat(parts, k), ch) == Times(k, m)
    decreases k
  {
    if k > 0 {
      ConcatUniform(parts, k - 1, ch, m);
      ConcatLast(parts, k, ch);
    }
  }

  lemma SeparatorCounts(c: int, n: int)
    ensures Occurrences(Separator(c, n), '\n') == (if c == n - 1 then 1 else 0)
    ensures Occurrences(Separator(c, n), ',') == (if c == n - 1 then 0 else 1)
  {
    assert Separator(c, n)[..0] == "";
  }

  /** A cell's piece holds a newline exactly when it is the last of the row, and a comma otherwise. */
  lemma PieceCounts(row: seq<int>, c: int)
    requires 0 <= c < |row|
    ensures Occurrences(CellPieces(row)[c], '\n') == (if c == |row| - 1 then 1 else 0)
    ensures Occurrences(CellPieces(row)[c], ',') == (if c == |row| - 1 then 0 else 1)
  {
    CellTextPlain(row[c]);
    SeparatorCounts(c, |row|);
    OccurrencesConcat(CellText(row[c]), Separator(c, |row|), '\n');
    OccurrencesConcat(CellText(row[c]), Separator(c, |row|), ',');
  }

  /** Every piece of a row but the last holds no newline and one comma. */
  lemma InnerPieceCounts(row: seq<int>)
    ensures forall c :: 0 <= c < |row| - 1 ==>
              Occurrences(CellPieces(row)[c], '\n') == 0 && Occurrences(CellPieces(row)[c], ',') == 1
  {
    forall c | 0 <= c < |row| - 1
      ensures Occurrences(CellPieces(row)[c], '\n') == 0 && Occurrences(CellPieces(row)[c], ',') == 1
    {
      PieceCounts(row, c);
    }
  }

  /** Parts that hold ch m times each, but for the last, which holds it l times. */
  lemma ConcatAllButLast(parts: seq<string>, ch: char, m: int, l: int)
    requires |parts| > 0
    requires forall i :: 0 <= i < |parts| - 1 ==> Occurrences(parts[i], ch) == m
    requires Occurrences(parts[|parts| - 1], ch) == l
    ensures Occurrences(Concat(parts, |parts|), ch) == (|parts| - 1) * m + l
  {
    ConcatUniform(parts, |parts| - 1, ch, m);
    TimesIsProduct(|parts| - 1, m);
    ConcatLast(parts, |parts|, ch);
  }

  /** The line of a nonempty row holds one newline and one comma fewer than it has cells. */
  lemma LineCounts(row: seq<int>)
    requires |row| > 0
    ensures Occurrences(LineText(row), '\n') == 1
    ensures Occurrences(LineText(row), ',') == |row| - 1
  {
    InnerPieceCounts(row);
    PieceCounts(row, |row| - 1);
    ConcatAllButLast(CellPieces(row), '\n', 0, 1);
    ConcatAllButLast(CellPieces(row), ',', 1, 0);
  }

  /** Every line of an n-by-n table with n > 0 holds one newline and n - 1 commas. */
  lemma AllLineCounts(v: Values, n: int)
    requires IsGrid(v, n) && n > 0
    ensures forall r :: 0 <= r < n ==> Occurrences(Lines(v)[r], '\n') == 1 && Occurrences(Lines(v)[r], ',') == n - 1
  {
    forall r | 0 <= r < n
      ensures Occurrences(Lines(v)[r], '\n') == 1 && Occurrences(Lines(v)[r], ',') == n - 1
    {
      LineCounts(v[r]);
    }
  }

  /** toString of an n-by-n table with n > 0 emits n lines and n - 1 commas on each. */
  lemma RenderCounts(v: Values, n: int)
    requires IsGrid(v, n) && n > 0
    ensures Occurrences(Render(v), '\n') == n
    ensures Occurrences(Render(v), ',') == n * (n - 1)
  {
    RenderJoins(v, n);
    AllLineCounts(v, n);
    ConcatUniform(Lines(v), n, '\n', 1);
    ConcatUniform(Lines(v), n, ',', n - 1);
    TimesIsProduct(n, 1);
    TimesIsProduct(n, n - 1);
  }

  lemma RenderJoins(v: Values, n: int)
    requires IsGrid(v, n)
    ensures Render(v) == Concat(Lines(v), n)
  {
  }
}
