/** Python's built-in `round`, on exact rational values. */
module Numeric {

  /** `round(x)`: the nearest integer, a tie going to the even neighbour. */
  function RoundHalfEven(x: real): (n: int)
    ensures n as real - x <= 0.5 && x - n as real <= 0.5
    ensures x.Floor as real == x ==> n == x.Floor
  {
    var f := x.Floor;
    var d := x - f as real;
    if d < 0.5 then f
    else if d > 0.5 then f + 1
    else if f % 2 == 0 then f else f + 1
  }

  lemma RoundHalfEvenMonotone(x: real, y: real)
    requires x <= y
    ensures RoundHalfEven(x) <= RoundHalfEven(y)
  {
    var fx, fy := x.Floor, y.Floor;
    assert fx <= fy;
    if fx < fy {
      assert RoundHalfEven(x) <= fx + 1 <= fy <= RoundHalfEven(y);
    }
  }

  /** `round(x, 2)`: the nearest multiple of 1/100, a tie going to the even one. */
  function Round2(x: real): (r: real)
    ensures r - x <= 0.005 && x - r <= 0.005
  {
    RoundHalfEven(x * 100.0) as real / 100.0
  }

  /** True of a value with at most two decimal places. */
  predicate IsHundredths(x: real) {
    (x * 100.0).Floor as real == x * 100.0
  }

  lemma Round2IsHundredths(x: real)
    ensures IsHundredths(Round2(x))
  {
    var n := RoundHalfEven(x * 100.0);
    assert Round2(x) * 100.0 == n as real;
  }

  /** A value that already has two decimal places is left unchanged. */
  lemma Round2Exact(x: real)
    requires IsHundredths(x)
    ensures Round2(x) == x
  {
    var n := RoundHalfEven(x * 100.0);
    assert n == (x * 100.0).Floor;
  }

  lemma Round2Monotone(x: real, y: real)
    requires x <= y
    ensures Round2(x) <= Round2(y)
  {
    RoundHalfEvenMonotone(x * 100.0, y * 100.0);
  }

  /** Rounding keeps a value inside any interval whose ends have two decimals. */
  lemma Round2Between(x: real, lo: real, hi: real)
    requires IsHundredths(lo) && IsHundredths(hi)
    requires lo <= x <= hi
    ensures lo <= Round2(x) <= hi
  {
    Round2Monotone(lo, x);
    Round2Monotone(x, hi);
    Round2Exact(lo);
    Round2Exact(hi);
  }
}
