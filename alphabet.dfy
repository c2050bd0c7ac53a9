/** The digit alphabet of a grid and digit positions in it. */
module Alphabet {

  /** No digit occurs twice in the alphabet. */
  predicate Distinct(digits: seq<int>)
  {
    forall i, j :: 0 <= i < j < |digits| ==> digits[i] != digits[j]
  }

  /**
   * getDigitPosition: the least position holding v, or -1 when v is not in
   * the alphabet.
   */
  function DigitPosition(digits: seq<int>, v: int): (p: int)
    ensures -1 <= p < |digits|
    ensures p == -1 <==> v !in digits
    ensures p >= 0 ==> digits[p] == v && forall q :: 0 <= q < p ==> digits[q] != v
  {
    if |digits| == 0 then -1
    else if digits[0] == v then 0
    else
      var p := DigitPosition(digits[1..], v);
      if p == -1 then -1 else p + 1
  }

  /** With a distinct alphabet, the position of the digit at p is p. */
  lemma PositionOfDigit(digits: seq<int>, p: int)
    requires Distinct(digits) && 0 <= p < |digits|
    ensures DigitPosition(digits, digits[p]) == p
  {
  }
}
