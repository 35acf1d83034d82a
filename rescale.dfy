/**
 * The affine rescale (display value = slope * stored value + intercept), the
 * intercept adjustment that follows the normalization shift, and the window
 * calculation that maps a window given in display units back to stored-sample
 * units.
 */
module Rescale {

  /** The display value of a stored sample. */
  function DisplayValue(slope: real, intercept: real, stored: real): (v: real) {
    slope * stored + intercept
  }

  /**
   * The amount the encoder adds to the intercept once the samples are shifted:
   * the minimum itself when it is negative, otherwise nothing. It is not
   * multiplied by the slope.
   */
  function InterceptDelta(minPixVal: int): (r: real)
    ensures r <= 0.0
    ensures minPixVal < 0 ==> r == minPixVal as real
    ensures r == 0.0 <==> minPixVal >= 0
  {
    if minPixVal < 0 then minPixVal as real else 0.0
  }

  /**
   * After a shift by `-m` (m < 0), a sample `v` is stored as `v - m` and the
   * intercept grows by `m`. The display value of the sample is kept exactly
   * when the slope is 1, and for no other slope.
   */
  lemma ShiftKeepsDisplayValueIffUnitSlope(slope: real, intercept: real, m: int, v: int)
    requires m < 0
    ensures DisplayValue(slope, intercept + InterceptDelta(m), (v - m) as real)
            == DisplayValue(slope, intercept, v as real)
        <==> slope == 1.0
  {
    var mr := m as real;
    var lhs := DisplayValue(slope, intercept + InterceptDelta(m), (v - m) as real);
    assert lhs == DisplayValue(slope, intercept, v as real) + mr * (1.0 - slope);
    assert mr != 0.0;
  }

  /** The inclusive bounds of the visible range, in stored-sample units. */
  datatype Bounds = Bounds(lower: int, upper: int)

  /**
   * The window [center - width/2, center + width/2] in display units, mapped
   * back through the rescale and rounded down at both ends.
   */
  function WindowBounds(center: real, width: real, slope: real, intercept: real): (b: Bounds)
    requires slope != 0.0
    ensures var c := (center - intercept) / slope;
      var h := (width / slope) / 2.0;
      b.lower as real <= c - h < b.lower as real + 1.0 &&
      b.upper as real <= c + h < b.upper as real + 1.0
  {
    var c := (center - intercept) / slope;
    var h := (width / slope) / 2.0;
    Bounds((c - h).Floor, (c + h).Floor)
  }

  /** The bounds are ordered whenever the width, in stored units, is not negative. */
  lemma WindowBoundsOrdered(center: real, width: real, slope: real, intercept: real)
    requires slope != 0.0
    requires width / slope >= 0.0
    ensures WindowBounds(center, width, slope, intercept).lower
         <= WindowBounds(center, width, slope, intercept).upper
  {
    var b := WindowBounds(center, width, slope, intercept);
    var c := (center - intercept) / slope;
    var h := (width / slope) / 2.0;
    assert c - h <= c + h;
    assert b.lower as real <= c + h;
  }

  /**
   * Mapping the bounds forward through the rescale brackets the window ends:
   * with a positive slope, stored value `lower` displays at or below
   * `center - width/2` and `lower + 1` above it, and likewise `upper` and
   * `upper + 1` around `center + width/2`. A negative slope reverses the
   * inequalities.
   */
  lemma WindowBoundsBracketWindow(center: real, width: real, slope: real, intercept: real)
    requires slope != 0.0
    ensures var b := WindowBounds(center, width, slope, intercept);
      var lo, hi := center - width / 2.0, center + width / 2.0;
      var L, L1 := DisplayValue(slope, intercept, b.lower as real), DisplayValue(slope, intercept, b.lower as real + 1.0);
      var U, U1 := DisplayValue(slope, intercept, b.upper as real), DisplayValue(slope, intercept, b.upper as real + 1.0);
      (slope > 0.0 ==> L <= lo < L1 && U <= hi < U1) &&
      (slope < 0.0 ==> L >= lo > L1 && U >= hi > U1)
  {
    var b := WindowBounds(center, width, slope, intercept);
    var c := (center - intercept) / slope;
    var h := (width / slope) / 2.0;
    InverseRescale(center, width, slope, intercept);
    FloorBracket(slope, intercept, c - h, b.lower, center - width / 2.0);
    FloorBracket(slope, intercept, c + h, b.upper, center + width / 2.0);
  }

  /** The center and half width in stored units map forward to the window ends. */
  lemma InverseRescale(center: real, width: real, slope: real, intercept: real)
    requires slope != 0.0
    ensures var c := (center - intercept) / slope;
      var h := (width / slope) / 2.0;
      slope * (c - h) + intercept == center - width / 2.0 &&
      slope * (c + h) + intercept == center + width / 2.0
  {
    var c := (center - intercept) / slope;
    var h := (width / slope) / 2.0;
    assert slope * c == center - intercept;
    assert slope * h == width / 2.0;
    assert slope * (c - h) == slope * c - slope * h;
    assert slope * (c + h) == slope * c + slope * h;
  }

  /** Rounding `x` down to `f` brackets the forward image of `x` between those of `f` and `f + 1`. */
  lemma FloorBracket(slope: real, intercept: real, x: real, f: int, target: real)
    requires slope != 0.0
    requires slope * x + intercept == target
    requires f as real <= x < f as real + 1.0
    ensures slope > 0.0 ==>
      DisplayValue(slope, intercept, f as real) <= target < DisplayValue(slope, intercept, f as real + 1.0)
    ensures slope < 0.0 ==>
      DisplayValue(slope, intercept, f as real) >= target > DisplayValue(slope, intercept, f as real + 1.0)
  {
    var l := f as real;
    assert target == DisplayValue(slope, intercept, x);
    if slope > 0.0 {
      DisplayMonotone(slope, intercept, l, x);
      DisplayStrict(slope, intercept, x, l + 1.0);
    } else {
      DisplayAntitone(slope, intercept, l, x);
      DisplayStrictAntitone(slope, intercept, x, l + 1.0);
    }
  }

  lemma DisplayMonotone(slope: real, intercept: real, a: real, b: real)
    requires slope > 0.0 && a <= b
    ensures DisplayValue(slope, intercept, a) <= DisplayValue(slope, intercept, b)
  {
    MulMonotone(slope, a, b);
  }

  lemma DisplayStrict(slope: real, intercept: real, a: real, b: real)
    requires slope > 0.0 && a < b
    ensures DisplayValue(slope, intercept, a) < DisplayValue(slope, intercept, b)
  {
    MulStrict(slope, a, b);
  }

  lemma DisplayAntitone(slope: real, intercept: real, a: real, b: real)
    requires slope < 0.0 && a <= b
    ensures DisplayValue(slope, intercept, a) >= DisplayValue(slope, intercept, b)
  {
    MulMonotone(-slope, a, b);
  }

  lemma DisplayStrictAntitone(slope: real, intercept: real, a: real, b: real)
    requires slope < 0.0 && a < b
    ensures DisplayValue(slope, intercept, a) > DisplayValue(slope, intercept, b)
  {
    MulStrict(-slope, a, b);
  }

  lemma MulMonotone(k: real, x: real, y: real)
    requires k > 0.0 && x <= y
    ensures k * x <= k * y
  {
  }

  lemma MulStrict(k: real, x: real, y: real)
    requires k > 0.0 && x < y
    ensures k * x < k * y
  {
  }
}
