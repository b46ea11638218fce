/** Python's built-in `round` applied to a float: the nearest integer, with
    ties going to the even neighbour. */
module PyRound {

  /** The integers allowed as `round(y)`: within one half of `y`, and even
      when `y` lies exactly halfway between two integers. */
  ghost predicate IsRounding(y: real, n: int) {
    && y - 0.5 <= n as real <= y + 0.5
    && ((n as real - y == 0.5 || y - n as real == 0.5) ==> n % 2 == 0)
  }

  function RoundHalfEven(y: real): (n: int)
    ensures IsRounding(y, n)
  {
    var f := y.Floor;
    var frac := y - f as real;
    if frac < 0.5 then f
    else if frac > 0.5 then f + 1
    else if f % 2 == 0 then f
    else f + 1
  }

  /** The rounding is the only integer with those properties. */
  lemma RoundingIsUnique(y: real, m: int)
    requires IsRounding(y, m)
    ensures m == RoundHalfEven(y)
  {
  }

  /** A value already integral rounds to itself. */
  lemma RoundIntegral(k: int)
    ensures RoundHalfEven(k as real) == k
  {
    RoundingIsUnique(k as real, k);
  }
}
