/**
 * What Cage.findCominations records, as a function of its arguments.
 *
 * The search extends a partial solution with digits[i] for every i from
 * startIndex on, recursing with the extended sum, and records the partial
 * solution whenever its sum equals the target.  A recorded combination is
 * described by the positions of the digits appended to the initial partial
 * solution.  The recursive call's start index is a parameter: the source
 * passes startIndex + i + 1, while choosing each position at most once in
 * increasing order needs i + 1.
 */
module Combinations {

  /** How the recursive call's start index is computed. */
  datatype StartRule = AsWritten | Intended

  /** Start index of the recursive call made for position i. */
  function NextStart(rule: StartRule, startIndex: int, i: int): int
  {
    if rule == AsWritten then startIndex + i + 1 else i + 1
  }

  /** Distance of a start index from the end of the digit list (0 once past it). */
  function Remaining(len: int, i: int): nat
  {
    if i < len then len - i else 0
  }

  /** Every list of positions with i put in front. */
  function PrefixAll(i: int, lists: seq<seq<int>>): (r: seq<seq<int>>)
    ensures |r| == |lists|
    ensures forall k :: 0 <= k < |lists| ==> r[k] == [i] + lists[k]
  {
    seq(|lists|, k requires 0 <= k < |lists| => [i] + lists[k])
  }

  /**
   * Position lists recorded by a call with running sum startVal and start
   * index startIndex, in the order they are recorded.
   */
  function Recorded(rule: StartRule, digits: seq<int>, target: int, startVal: int, startIndex: int): (r: seq<seq<int>>)
    requires startIndex >= 0
    ensures forall k :: 0 <= k < |r| ==> IncreasingWithin(r[k], startIndex, |digits|)
    decreases Remaining(|digits|, startIndex), 1, 0
  {
    (if startVal == target then [[]] else []) +
    (if startIndex < |digits| then RecordedBetween(rule, digits, target, startVal, startIndex, |digits|) else [])
  }

  /** Position lists recorded by the loop iterations for positions startIndex .. i - 1. */
  function RecordedBetween(rule: StartRule, digits: seq<int>, target: int, startVal: int, startIndex: int, i: int): (r: seq<seq<int>>)
    requires 0 <= startIndex <= i <= |digits|
    ensures forall k :: 0 <= k < |r| ==> IncreasingWithin(r[k], startIndex, |digits|)
    decreases Remaining(|digits|, startIndex), 0, i - startIndex
  {
    if i == startIndex then []
    else
      var next := NextStart(rule, startIndex, i - 1);
      var inner := Recorded(rule, digits, target, startVal + digits[i - 1], next);
      PrefixIncreasing(i - 1, inner, next, |digits|, startIndex);
      RecordedBetween(rule, digits, target, startVal, startIndex, i - 1) + PrefixAll(i - 1, inner)
  }

  /** Putting i, below lo, in front of increasing positions from lo gives increasing positions from i. */
  lemma PrefixIncreasing(i: int, lists: seq<seq<int>>, lo: int, hi: int, lo': int)
    requires 0 <= lo' <= i < lo && i < hi
    requires forall k :: 0 <= k < |lists| ==> IncreasingWithin(lists[k], lo, hi)
    ensures forall k :: 0 <= k < |lists| ==> IncreasingWithin(PrefixAll(i, lists)[k], lo', hi)
  {
    forall k | 0 <= k < |lists|
      ensures IncreasingWithin([i] + lists[k], lo', hi)
    {
      var l := [i] + lists[k];
      assert forall j :: 1 <= j < |l| ==> l[j] == lists[k][j - 1];
      forall j, j' | 0 <= j < j' < |l|
        ensures l[j] < l[j']
      {
        if j > 0 {
          assert l[j] == lists[k][j - 1] && l[j'] == lists[k][j' - 1];
        }
      }
    }
  }

  /** Every position indexes the digit list. */
  predicate InRange(pos: seq<int>, len: int)
  {
    forall j :: 0 <= j < |pos| ==> 0 <= pos[j] < len
  }

  /** Sum of the digits at the listed positions. */
  function SumAt(digits: seq<int>, pos: seq<int>): int
    requires InRange(pos, |digits|)
  {
    if |pos| == 0 then 0 else digits[pos[0]] + SumAt(digits, pos[1..])
  }

  /** The digits at the listed positions. */
  function DigitsAt(digits: seq<int>, pos: seq<int>): (r: seq<int>)
    requires InRange(pos, |digits|)
    ensures |r| == |pos| && forall j :: 0 <= j < |pos| ==> r[j] == digits[pos[j]]
  {
    seq(|pos|, j requires 0 <= j < |pos| => digits[pos[j]])
  }

  /** The positions are strictly increasing and lie in [lo, hi). */
  predicate IncreasingWithin(pos: seq<int>, lo: int, hi: int)
  {
    lo >= 0 && InRange(pos, hi) && (forall j :: 0 <= j < |pos| ==> lo <= pos[j]) &&
    (forall j, j' :: 0 <= j < j' < |pos| ==> pos[j] < pos[j'])
  }

  /** The arrays recorded: the initial partial solution followed by the digits at each position list. */
  function Materialize(partial: seq<int>, digits: seq<int>, lists: seq<seq<int>>): (r: seq<seq<int>>)
    requires forall k :: 0 <= k < |lists| ==> InRange(lists[k], |digits|)
    ensures |r| == |lists|
    ensures forall k :: 0 <= k < |lists| ==> r[k] == partial + DigitsAt(digits, lists[k])
  {
    seq(|lists|, k requires 0 <= k < |lists| => partial + DigitsAt(digits, lists[k]))
  }

  /** Recording after appending digits[i] is recording the position lists with i in front. */
  lemma MaterializePrefix(partial: seq<int>, digits: seq<int>, i: int, lists: seq<seq<int>>)
    requires 0 <= i < |digits|
    requires forall k :: 0 <= k < |lists| ==> InRange(lists[k], |digits|)
    ensures forall k :: 0 <= k < |lists| ==> InRange(PrefixAll(i, lists)[k], |digits|)
    ensures Materialize(partial + [digits[i]], digits, lists) == Materialize(partial, digits, PrefixAll(i, lists))
  {
    forall k | 0 <= k < |lists|
      ensures InRange(PrefixAll(i, lists)[k], |digits|)
      ensures (partial + [digits[i]]) + DigitsAt(digits, lists[k]) == partial + DigitsAt(digits, [i] + lists[k])
    {
      assert InRange([i] + lists[k], |digits|) by {
        assert forall j :: 1 <= j < |[i] + lists[k]| ==> ([i] + lists[k])[j] == lists[k][j - 1];
      }
      assert DigitsAt(digits, [i] + lists[k]) == [digits[i]] + DigitsAt(digits, lists[k]);
    }
  }

  /** Recording two runs of position lists in turn. */
  lemma MaterializeAppend(partial: seq<int>, digits: seq<int>, a: seq<seq<int>>, b: seq<seq<int>>)
    requires forall k :: 0 <= k < |a| ==> InRange(a[k], |digits|)
    requires forall k :: 0 <= k < |b| ==> InRange(b[k], |digits|)
    ensures Materialize(partial, digits, a + b) == Materialize(partial, digits, a) + Materialize(partial, digits, b)
  {
  }

  /**
   * The arrays a call records, in order: the partial solution itself when
   * the running sum has reached the target, then what each try of its loop
   * records.
   */
  function Found(rule: StartRule, digits: seq<int>, target: int, startVal: int, startIndex: int, partial: seq<int>): seq<seq<int>>
    requires startIndex >= 0
    decreases Remaining(|digits|, startIndex), 1, 0
  {
    (if startVal == target then [partial] else []) +
    (if startIndex < |digits| then FoundBetween(rule, digits, target, startVal, startIndex, |digits|, partial) else [])
  }

  /** The arrays the tries of a call's loop for positions startIndex .. i - 1 record. */
  function FoundBetween(rule: StartRule, digits: seq<int>, target: int, startVal: int, startIndex: int, i: int, partial: seq<int>): seq<seq<int>>
    requires 0 <= startIndex <= i <= |digits|
    decreases Remaining(|digits|, startIndex), 0, i - startIndex
  {
    if i == startIndex then []
    else
      FoundBetween(rule, digits, target, startVal, startIndex, i - 1, partial) +
      Found(rule, digits, target, startVal + digits[i - 1], NextStart(rule, startIndex, i - 1), partial + [digits[i - 1]])
  }

  /** The recorded arrays are the partial solution followed by the digits at each position list Recorded gives. */
  lemma {:induction false} FoundRecorded(rule: StartRule, digits: seq<int>, target: int, startVal: int, startIndex: int, partial: seq<int>)
    requires startIndex >= 0
    ensures Found(rule, digits, target, startVal, startIndex, partial) ==
              Materialize(partial, digits, Recorded(rule, digits, target, startVal, startIndex))
    decreases Remaining(|digits|, startIndex), 1, 0
  {
    var head: seq<seq<int>> := if startVal == target then [[]] else [];
    var tail := if startIndex < |digits| then RecordedBetween(rule, digits, target, startVal, startIndex, |digits|) else [];
    assert DigitsAt(digits, []) == [] && partial + [] == partial;
    assert Materialize(partial, digits, head) == if startVal == target then [partial] else [];
    MaterializeAppend(partial, digits, head, tail);
    if startIndex < |digits| {
      FoundBetweenRecorded(rule, digits, target, startVal, startIndex, |digits|, partial);
    }
  }

  lemma {:induction false} FoundBetweenRecorded(rule: StartRule, digits: seq<int>, target: int, startVal: int, startIndex: int, i: int, partial: seq<int>)
    requires 0 <= startIndex <= i <= |digits|
    ensures FoundBetween(rule, digits, target, startVal, startIndex, i, partial) ==
              Materialize(partial, digits, RecordedBetween(rule, digits, target, startVal, startIndex, i))
    decreases Remaining(|digits|, startIndex), 0, i - startIndex
  {
    if i > startIndex {
      var next := NextStart(rule, startIndex, i - 1);
      FoundBetweenRecorded(rule, digits, target, startVal, startIndex, i - 1, partial);
      FoundRecorded(rule, digits, target, startVal + digits[i - 1], next, partial + [digits[i - 1]]);
      RecordedBetweenStep(rule, digits, target, startVal, startIndex, i, partial);
    }
  }

  /** The arrays for the tries up to i are those up to i - 1, then those of the try for position i - 1. */
  lemma RecordedBetweenStep(rule: StartRule, digits: seq<int>, target: int, startVal: int, startIndex: int, i: int, partial: seq<int>)
    requires 0 <= startIndex < i <= |digits|
    ensures Materialize(partial, digits, RecordedBetween(rule, digits, target, startVal, startIndex, i)) ==
              Materialize(partial, digits, RecordedBetween(rule, digits, target, startVal, startIndex, i - 1)) +
              Materialize(partial + [digits[i - 1]], digits,
                          Recorded(rule, digits, target, startVal + digits[i - 1], NextStart(rule, startIndex, i - 1)))
  {
    var inner := Recorded(rule, digits, target, startVal + digits[i - 1], NextStart(rule, startIndex, i - 1));
    var done := RecordedBetween(rule, digits, target, startVal, startIndex, i - 1);
    MaterializePrefix(partial, digits, i - 1, inner);
    MaterializeAppend(partial, digits, done, PrefixAll(i - 1, inner));
    assert RecordedBetween(rule, digits, target, startVal, startIndex, i) == done + PrefixAll(i - 1, inner);
  }

  /**
   * Every array a call records is the partial solution followed by digits
   * at strictly increasing positions from startIndex whose sum completes
   * the running sum to the target.
   */
  lemma FoundSound(rule: StartRule, digits: seq<int>, target: int, startVal: int, startIndex: int, partial: seq<int>, a: seq<int>)
    requires startIndex >= 0
    requires a in Found(rule, digits, target, startVal, startIndex, partial)
    ensures exists pos :: IncreasingWithin(pos, startIndex, |digits|) && startVal + SumAt(digits, pos) == target &&
                          a == partial + DigitsAt(digits, pos)
  {
    var lists := Recorded(rule, digits, target, startVal, startIndex);
    FoundRecorded(rule, digits, target, startVal, startIndex, partial);
    RecordedSound(rule, digits, target, startVal, startIndex);
    var k :| 0 <= k < |lists| && Materialize(partial, digits, lists)[k] == a;
    var pos := lists[k];
    assert IncreasingWithin(pos, startIndex, |digits|) && startVal + SumAt(digits, pos) == target;
  }

  /** With i + 1, a call records partial followed by every choice of digits at increasing positions that completes the target. */
  lemma FoundComplete(digits: seq<int>, target: int, startVal: int, startIndex: int, partial: seq<int>, pos: seq<int>)
    requires startIndex >= 0
    requires IncreasingWithin(pos, startIndex, |digits|)
    requires startVal + SumAt(digits, pos) == target
    ensures partial + DigitsAt(digits, pos) in Found(Intended, digits, target, startVal, startIndex, partial)
  {
    var lists := Recorded(Intended, digits, target, startVal, startIndex);
    IntendedComplete(digits, target, startVal, startIndex, pos);
    FoundRecorded(Intended, digits, target, startVal, startIndex, partial);
    var k :| 0 <= k < |lists| && lists[k] == pos;
    assert Materialize(partial, digits, lists)[k] == partial + DigitsAt(digits, pos);
  }

  // ---------------------------------------------------------------------
  // What every recorded combination satisfies, under either rule
  // ---------------------------------------------------------------------

  /** The digits at each recorded position list complete the running sum to the target. */
  lemma {:induction false} RecordedSound(rule: StartRule, digits: seq<int>, target: int, startVal: int, startIndex: int)
    requires startIndex >= 0
    ensures forall k :: 0 <= k < |Recorded(rule, digits, target, startVal, startIndex)| ==>
              startVal + SumAt(digits, Recorded(rule, digits, target, startVal, startIndex)[k]) == target
    decreases Remaining(|digits|, startIndex), 1, 0
  {
    if startIndex < |digits| {
      BetweenSound(rule, digits, target, startVal, startIndex, |digits|);
    }
  }

  lemma {:induction false} BetweenSound(rule: StartRule, digits: seq<int>, target: int, startVal: int, startIndex: int, i: int)
    requires 0 <= startIndex <= i <= |digits|
    ensures forall k :: 0 <= k < |RecordedBetween(rule, digits, target, startVal, startIndex, i)| ==>
              startVal + SumAt(digits, RecordedBetween(rule, digits, target, startVal, startIndex, i)[k]) == target
    decreases Remaining(|digits|, startIndex), 0, i - startIndex
  {
    if i > startIndex {
      BetweenSound(rule, digits, target, startVal, startIndex, i - 1);
      var next := NextStart(rule, startIndex, i - 1);
      var inner := Recorded(rule, digits, target, startVal + digits[i - 1], next);
      RecordedSound(rule, digits, target, startVal + digits[i - 1], next);
      forall k | 0 <= k < |inner|
        ensures startVal + SumAt(digits, [i - 1] + inner[k]) == target
      {
        assert ([i - 1] + inner[k])[1..] == inner[k];
      }
    }
  }

  // ---------------------------------------------------------------------
  // The search as written misses combinations; with i + 1 it finds all
  // ---------------------------------------------------------------------

  /** With digits 1, 2, 3 and target 6 the search as written records nothing. */
  lemma AsWrittenMissesCombination()
    ensures Recorded(AsWritten, [1, 2, 3], 6, 0, 0) == []
  {
    var D := [1, 2, 3];
    // Position 0 leads to start 1, position 1 to start 2 or 3, position 2 past the end.
    assert Recorded(AsWritten, D, 6, 3, 3) == [];
    assert Recorded(AsWritten, D, 6, 4, 4) == [];
    assert Recorded(AsWritten, D, 6, 5, 5) == [];
    assert RecordedBetween(AsWritten, D, 6, 1, 1, 2) == PrefixAll(1, Recorded(AsWritten, D, 6, 3, 3));
    assert RecordedBetween(AsWritten, D, 6, 1, 1, 3) == PrefixAll(2, Recorded(AsWritten, D, 6, 4, 4));
    assert Recorded(AsWritten, D, 6, 1, 1) == [];
    assert RecordedBetween(AsWritten, D, 6, 2, 2, 3) == PrefixAll(2, Recorded(AsWritten, D, 6, 5, 5));
    assert Recorded(AsWritten, D, 6, 2, 2) == [];
    assert RecordedBetween(AsWritten, D, 6, 0, 0, 1) == PrefixAll(0, Recorded(AsWritten, D, 6, 1, 1));
    assert RecordedBetween(AsWritten, D, 6, 0, 0, 2) == PrefixAll(1, Recorded(AsWritten, D, 6, 2, 2));
    assert RecordedBetween(AsWritten, D, 6, 0, 0, 3) == PrefixAll(2, Recorded(AsWritten, D, 6, 3, 3));
  }

  /** With i + 1 the same search records the combination 1 + 2 + 3. */
  lemma IntendedFindsCombination()
    ensures IncreasingWithin([0, 1, 2], 0, 3) && SumAt([1, 2, 3], [0, 1, 2]) == 6
    ensures [0, 1, 2] in Recorded(Intended, [1, 2, 3], 6, 0, 0)
  {
    assert [0, 1, 2][1..] == [1, 2] && [1, 2][1..] == [2];
    IntendedComplete([1, 2, 3], 6, 0, 0, [0, 1, 2]);
  }

  /** A loop over positions startIndex .. i - 1 records everything recorded for one of those positions. */
  lemma {:induction false} BetweenContains(digits: seq<int>, target: int, startVal: int, startIndex: int, i: int, p: int, tail: seq<int>)
    requires 0 <= startIndex <= p < i <= |digits|
    requires tail in Recorded(Intended, digits, target, startVal + digits[p], p + 1)
    ensures [p] + tail in RecordedBetween(Intended, digits, target, startVal, startIndex, i)
    decreases i
  {
    if p < i - 1 {
      BetweenContains(digits, target, startVal, startIndex, i - 1, p, tail);
    } else {
      var inner := Recorded(Intended, digits, target, startVal + digits[p], p + 1);
      var k :| 0 <= k < |inner| && inner[k] == tail;
      assert PrefixAll(p, inner)[k] == [p] + tail;
    }
  }

  /** Dropping the first of increasing positions leaves positions above it. */
  lemma TailIncreasing(pos: seq<int>, lo: int, hi: int)
    requires |pos| > 0 && IncreasingWithin(pos, lo, hi)
    ensures IncreasingWithin(pos[1..], pos[0] + 1, hi)
  {
    forall j | 0 <= j < |pos| - 1
      ensures pos[0] + 1 <= pos[1..][j]
    {
      assert pos[0] < pos[j + 1];
    }
  }

  /** With i + 1, every increasing position list from startIndex that completes the target is recorded. */
  lemma {:induction false} IntendedComplete(digits: seq<int>, target: int, startVal: int, startIndex: int, pos: seq<int>)
    requires startIndex >= 0
    requires IncreasingWithin(pos, startIndex, |digits|)
    requires startVal + SumAt(digits, pos) == target
    ensures pos in Recorded(Intended, digits, target, startVal, startIndex)
    decreases |pos|
  {
    if |pos| == 0 {
      EmptyRecorded(Intended, digits, target, startVal, startIndex);
    } else {
      var p, tail := pos[0], pos[1..];
      TailIncreasing(pos, startIndex, |digits|);
      assert startVal + digits[p] + SumAt(digits, tail) == target;
      IntendedComplete(digits, target, startVal + digits[p], p + 1, tail);
      BetweenContains(digits, target, startVal, startIndex, |digits|, p, tail);
      assert pos == [p] + tail;
      LoopRecorded(Intended, digits, target, startVal, startIndex, pos);
    }
  }

  /** What the loop of a call records, the call records. */
  lemma LoopRecorded(rule: StartRule, digits: seq<int>, target: int, startVal: int, startIndex: int, pos: seq<int>)
    requires 0 <= startIndex < |digits|
    requires pos in RecordedBetween(rule, digits, target, startVal, startIndex, |digits|)
    ensures pos in Recorded(rule, digits, target, startVal, startIndex)
  {
  }

  /** Reaching the target records the partial solution as it stands. */
  lemma EmptyRecorded(rule: StartRule, digits: seq<int>, target: int, startVal: int, startIndex: int)
    requires startIndex >= 0 && startVal == target
    ensures [] in Recorded(rule, digits, target, startVal, startIndex)
  {
    assert Recorded(rule, digits, target, startVal, startIndex)[0] == [];
  }
}
