/**
 The three numeric conversions of the Python 2 runtime that the clock code
 relies on, stated over Dafny's unbounded `int` and exact `real`:

 - `/` between two integers, which floors (it rounds toward negative infinity);
 - the built-in `round`, which rounds halves away from zero;
 - `int(x)` on a float, which truncates toward zero.

 Floats are modelled as mathematical reals throughout; IEEE rounding is not.
 */
module Numeric {

  /** Python 2 `a / b` on integers: the quotient rounded toward negative infinity.
      Dafny's own `/` is Euclidean, which agrees with flooring only for b > 0. */
  function FloorDiv(a: int, b: int): (q: int)
    requires b != 0
    ensures b > 0 ==> q * b <= a < q * b + b
    ensures b < 0 ==> q * b >= a > q * b + b
  {
    if b > 0 then a / b else (-a) / (-b)
  }

  /** The integer just below or at x, as a real. */
  lemma FloorUnique(x: real, n: int)
    requires n as real <= x < n as real + 1.0
    ensures x.Floor == n
  {
  }

  /** A number whose product with a positive scale lies in [0, scale) lies in [0, 1). */
  lemma UnitFromScaled(d: real, c: real)
    requires c > 0.0 && 0.0 <= d * c < c
    ensures 0.0 <= d < 1.0
  {
  }

  /** The exact quotient a / b exceeds q by (a - q * b) / b. */
  lemma QuotientExcess(a: int, b: int, q: int)
    requires b != 0
    ensures ((a as real) / (b as real) - q as real) * (b as real) == (a - q * b) as real
  {
    var x := (a as real) / (b as real);
    assert x * (b as real) == a as real;
  }

  /** If x exceeds the integer q by r / c with 0 <= r < c, then q is the floor of x. */
  lemma FloorFromRemainder(x: real, q: int, r: int, c: int)
    requires 0 <= r < c
    requires (x - q as real) * (c as real) == r as real
    ensures x.Floor == q
  {
    var d, cr := x - q as real, c as real;
    assert d * cr == r as real;
    assert 0.0 <= r as real < cr;
    UnitFromScaled(d, cr);
    FloorUnique(x, q);
  }

  /** Adding an integer to x adds it to the floor of x. */
  lemma FloorShift(x: real, k: int)
    ensures (x + k as real).Floor == x.Floor + k
  {
    FloorUnique(x + k as real, x.Floor + k);
  }

  /** Integer floor division is the floor of the exact real quotient, for either sign of divisor. */
  lemma FloorDivIsRealFloor(a: int, b: int)
    requires b != 0
    ensures FloorDiv(a, b) == ((a as real) / (b as real)).Floor
  {
    var q := FloorDiv(a, b);
    var x := (a as real) / (b as real);
    QuotientExcess(a, b, q);
    if b > 0 {
      FloorFromRemainder(x, q, a - q * b, b);
    } else {
      QuotientExcess(-a, -b, q);
      assert x == ((-a) as real) / ((-b) as real);
      FloorFromRemainder(x, q, q * b - a, -b);
    }
  }

  /** Python 2 `round(x)`: the nearest integer, halves going away from zero. */
  function RoundHalfAway(x: real): (r: int)
    ensures x >= 0.0 ==> x - 0.5 < r as real <= x + 0.5
    ensures x < 0.0 ==> x - 0.5 <= r as real < x + 0.5
  {
    if x >= 0.0 then (x + 0.5).Floor else -((-x + 0.5).Floor)
  }

  /** Rounding commutes with negation: halves are treated alike on both sides of zero. */
  lemma RoundHalfAwayOdd(x: real)
    ensures RoundHalfAway(-x) == -RoundHalfAway(x)
  {
  }

  /** Python `int(x)` on a float: the integer part, truncated toward zero. */
  function Truncate(x: real): (r: int)
    ensures x >= 0.0 ==> r as real <= x < r as real + 1.0
    ensures x < 0.0 ==> r as real - 1.0 < x <= r as real
  {
    if x >= 0.0 then x.Floor else -((-x).Floor)
  }

  /** Truncating a value that is already a whole number gives that number back. */
  lemma TruncateWhole(n: int)
    ensures Truncate(n as real) == n
  {
  }
}
