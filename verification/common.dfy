// Small shared vocabulary: an optional value and occurrence counts.

module Common {

  datatype Option<T> = None | Some(value: T)

  /** Number of positions of s holding v (counted from the back, so that a loop
      filling s front to back extends the count by its last element). */
  function Count(s: seq<int>, v: int): (c: nat)
    ensures c <= |s|
  {
    if s == [] then 0
    else Count(s[..|s| - 1], v) + (if s[|s| - 1] == v then 1 else 0)
  }

  lemma CountSnoc(s: seq<int>, x: int, v: int)
    ensures Count(s + [x], v) == Count(s, v) + (if x == v then 1 else 0)
  {
    assert (s + [x])[..|s|] == s;
  }

  /** Every element of s lies in {0, 1, 2}. */
  predicate Trinary(s: seq<int>)
  {
    forall i :: 0 <= i < |s| ==> 0 <= s[i] <= 2
  }

  /** On a trinary sequence the three counts add up to the length. */
  lemma {:induction false} TrinaryCounts(s: seq<int>)
    requires Trinary(s)
    ensures Count(s, 0) + Count(s, 1) + Count(s, 2) == |s|
  {
    if s != [] {
      TrinaryCounts(s[..|s| - 1]);
    }
  }

  /** The message space of the fixed-weight HPS parameter sets: as many 1s as
      2s, and weight nonzero coefficients in all. */
  predicate MessageSpace(m: seq<int>, weight: int)
  {
    Count(m, 1) == Count(m, 2) && Count(m, 1) + Count(m, 2) == weight
  }

  /** c is 0, 1 or -1 modulo q. */
  predicate TrinaryMod(c: int, q: int)
    requires q > 0
  {
    c % q == 0 || c % q == 1 || c % q == q - 1
  }
}
