/** The parts of Python 2 semantics that the modelled code relies on:
    integer division of two ints (which floors) and slicing with
    negative or out-of-range bounds. */
module PySemantics {

  /** `a / b` on two Python 2 ints: the quotient rounded towards minus infinity.
      (Dafny's own `/` is Euclidean, which agrees only for positive divisors.) */
  function FloorDiv(a: int, b: int): (q: int)
    requires b != 0
    ensures b > 0 ==> q * b <= a < q * b + b
    ensures b < 0 ==> q * b + b < a <= q * b
  {
    if b > 0 then a / b else (-a) / (-b)
  }

  /** Where a slice bound `i` lands in a sequence of length `len`: a negative
      bound counts from the end, and the result is clamped to 0..len. */
  function SliceBound(i: int, len: nat): (k: nat)
    ensures k <= len
    ensures 0 <= i <= len ==> k == i
    ensures i < 0 <= i + len ==> k == i + len
    ensures i > len ==> k == len
    ensures i + len < 0 ==> k == 0
  {
    if i < 0 then (if i + len < 0 then 0 else i + len)
    else if i > len then len
    else i
  }

  /** Python's `s[start:stop]`: never fails, empty when the bounds cross. */
  function Slice<T>(s: seq<T>, start: int, stop: int): (r: seq<T>)
    ensures SliceBound(stop, |s|) <= SliceBound(start, |s|) ==> r == []
    ensures SliceBound(start, |s|) < SliceBound(stop, |s|) ==>
              |r| == SliceBound(stop, |s|) - SliceBound(start, |s|)
    ensures forall k :: 0 <= k < |r| ==> r[k] == s[SliceBound(start, |s|) + k]
  {
    var lo, hi := SliceBound(start, |s|), SliceBound(stop, |s|);
    if hi <= lo then [] else s[lo..hi]
  }

}
