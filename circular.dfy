/**
 The circular restriction `restrict(value, lower, upper)` of the clock: it
 wraps `value` into the half-open range [lower, upper) by subtracting a whole
 number of periods `upper - lower`, using floor (not truncation) so that
 negative inputs wrap into the positive range. The clock uses it for hour
 angles (period 24) and for the final count of seconds (period 86400).
 */
module Circular {
  import opened Numeric

  /** x is a whole number. */
  predicate IsWhole(x: real) {
    x.Floor as real == x
  }

  /** `restrict` over reals. The source divides by `upper - lower`, so equal
      bounds raise a division error there; here they are excluded. */
  function Restrict(value: real, lower: real, upper: real): real
    requires lower != upper
  {
    value - (upper - lower) * ((value - lower) / (upper - lower)).Floor as real
  }

  /** `restrict` on integer arguments, with Python 2 flooring integer division. */
  function RestrictInt(value: int, lower: int, upper: int): int
    requires lower != upper
  {
    value - (upper - lower) * FloorDiv(value - lower, upper - lower)
  }

  /** Dividing undoes multiplying by a nonzero period. */
  lemma DivMul(a: real, w: real)
    requires w != 0.0
    ensures (a / w) * w == a
  {
  }

  /** Adding b periods before dividing by the period adds b to the quotient. */
  lemma DivShift(a: real, b: real, w: real)
    requires w != 0.0
    ensures (a + b * w) / w == a / w + b
  {
  }

  /** A fraction t in [0, 1) of a positive period w lies in [0, w). */
  lemma ScaleUnit(t: real, w: real)
    requires 0.0 <= t < 1.0 && w > 0.0
    ensures 0.0 <= t * w < w
  {
  }

  /** A fraction t in [0, 1) of a negative period w lies in (w, 0]. */
  lemma ScaleUnitNegative(t: real, w: real)
    requires 0.0 <= t < 1.0 && w < 0.0
    ensures w < t * w <= 0.0
  {
  }

  /** How far `value` lies into its period, as a fraction in [0, 1). */
  function Phase(value: real, lower: real, upper: real): real
    requires lower != upper
  {
    var q := (value - lower) / (upper - lower);
    q - q.Floor as real
  }

  /** `restrict` lands `Phase` periods past `lower`. */
  lemma RestrictByPhase(value: real, lower: real, upper: real)
    requires lower != upper
    ensures Restrict(value, lower, upper) == lower + Phase(value, lower, upper) * (upper - lower)
    ensures 0.0 <= Phase(value, lower, upper) < 1.0
  {
    var w := upper - lower;
    var q := (value - lower) / w;
    var f := q.Floor as real;
    DivMul(value - lower, w);
    assert (q - f) * w == q * w - f * w;
  }

  /** A point a fraction p in [0, 1) of the way from lower to upper lies between them. */
  lemma FractionOfRange(r: real, lower: real, upper: real, p: real)
    requires r == lower + p * (upper - lower) && 0.0 <= p < 1.0
    ensures lower < upper ==> lower <= r < upper
    ensures upper < lower ==> upper < r <= lower
  {
    var w := upper - lower;
    var pw := p * w;
    assert r == lower + pw;
    if w > 0.0 {
      ScaleUnit(p, w);
    } else if w < 0.0 {
      ScaleUnitNegative(p, w);
    }
  }

  /** For lower < upper the result lies in [lower, upper). */
  lemma RestrictBounds(value: real, lower: real, upper: real)
    requires lower < upper
    ensures lower <= Restrict(value, lower, upper) < upper
  {
    RestrictByPhase(value, lower, upper);
    FractionOfRange(Restrict(value, lower, upper), lower, upper, Phase(value, lower, upper));
  }

  /** With the bounds given the other way round the result lies in (upper, lower]. */
  lemma RestrictBoundsReversed(value: real, lower: real, upper: real)
    requires upper < lower
    ensures upper < Restrict(value, lower, upper) <= lower
  {
    RestrictByPhase(value, lower, upper);
    FractionOfRange(Restrict(value, lower, upper), lower, upper, Phase(value, lower, upper));
  }

  /** The result differs from `value` by a whole number of periods. */
  lemma RestrictCongruent(value: real, lower: real, upper: real)
    requires lower != upper
    ensures IsWhole((value - Restrict(value, lower, upper)) / (upper - lower))
  {
    var w := upper - lower;
    var q := (value - lower) / w;
    var p := Phase(value, lower, upper);
    RestrictByPhase(value, lower, upper);
    assert value - Restrict(value, lower, upper) == (value - lower) + (-p) * w;
    DivShift(value - lower, -p, w);
    assert (value - Restrict(value, lower, upper)) / w == q.Floor as real;
  }

  /** Whole periods added to `value` leave its phase unchanged. */
  lemma PhaseShift(value: real, lower: real, upper: real, k: int)
    requires lower != upper
    ensures Phase(value + (k as real) * (upper - lower), lower, upper) == Phase(value, lower, upper)
  {
    var w := upper - lower;
    var q := (value - lower) / w;
    DivShift(value - lower, k as real, w);
    var q' := (value + (k as real) * (upper - lower) - lower) / (upper - lower);
    assert q' == q + k as real;
    FloorShift(q, k);
    assert q'.Floor == q.Floor + k;
    assert Phase(value + (k as real) * (upper - lower), lower, upper) == q' - q'.Floor as real;
  }

  /** Adding a whole number of periods to `value` does not change the result. */
  lemma RestrictPeriodic(value: real, lower: real, upper: real, k: int)
    requires lower != upper
    ensures Restrict(value + (k as real) * (upper - lower), lower, upper)
         == Restrict(value, lower, upper)
  {
    PhaseShift(value, lower, upper, k);
    RestrictByPhase(value, lower, upper);
    RestrictByPhase(value + (k as real) * (upper - lower), lower, upper);
  }

  /** `restrict` is the identity on values already inside [lower, upper). */
  lemma RestrictIdentity(value: real, lower: real, upper: real)
    requires lower <= value < upper
    ensures Restrict(value, lower, upper) == value
  {
    var w := upper - lower;
    var q := (value - lower) / w;
    DivMul(value - lower, w);
    UnitFromScaled(q, w);
    FloorUnique(q, 0);
    RestrictByPhase(value, lower, upper);
    assert Phase(value, lower, upper) == q;
  }

  /** A value in [lower, upper) that differs from `value` by whole periods is the result. */
  lemma RestrictOfCongruent(value: real, lower: real, upper: real, x: real)
    requires lower <= x < upper && IsWhole((value - x) / (upper - lower))
    ensures Restrict(value, lower, upper) == x
  {
    var w := upper - lower;
    var n := ((value - x) / w).Floor;
    RestrictPeriodic(x, lower, upper, n);
    RestrictIdentity(x, lower, upper);
    DivMul(value - x, w);
    assert x + (n as real) * (upper - lower) == value;
  }

  /** Reference definition: for lower < upper, `restrict` picks out the one
      value in [lower, upper) that differs from `value` by whole periods. */
  lemma RestrictUnique(value: real, lower: real, upper: real, x: real)
    requires lower < upper
    ensures x == Restrict(value, lower, upper)
        <==> lower <= x < upper && IsWhole((value - x) / (upper - lower))
  {
    RestrictBounds(value, lower, upper);
    RestrictCongruent(value, lower, upper);
    if lower <= x < upper && IsWhole((value - x) / (upper - lower)) {
      RestrictOfCongruent(value, lower, upper, x);
    }
  }

  /** On whole numbers the real `restrict` agrees with the integer one. */
  lemma RestrictIntAgrees(value: int, lower: int, upper: int)
    requires lower != upper
    ensures Restrict(value as real, lower as real, upper as real)
         == RestrictInt(value, lower, upper) as real
  {
    FloorDivIsRealFloor(value - lower, upper - lower);
    assert (value as real - lower as real) / (upper as real - lower as real)
        == ((value - lower) as real) / ((upper - lower) as real);
  }

  /** With lower bound 0 the integer `restrict` is the remainder modulo the period. */
  lemma RestrictIntIsMod(value: int, period: int)
    requires period > 0
    ensures RestrictInt(value, 0, period) == value % period
  {
  }
}
