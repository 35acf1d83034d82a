/**
 * The interactive viewing parameters: window width, window center and zoom,
 * each moved by a signed delta, and what any sequence of such moves leads to.
 */
module Viewport {

  /** The window width after adding `d`: the sum, or 0 when the sum is negative. */
  function AdjustedWinWidth(w: real, d: real): (r: real)
    ensures r >= 0.0 && r >= w + d
    ensures r == w + d || r == 0.0
  {
    if w + d < 0.0 then 0.0 else w + d
  }

  /**
   * The zoom after adding `d`: a non-negative delta is added unbounded; a
   * negative one is added and the result raised to 1.0 if it fell below.
   */
  function AdjustedZoom(z: real, d: real): (r: real)
    ensures d >= 0.0 ==> r == z + d
    ensures d < 0.0 ==> r >= 1.0 && r >= z + d && (r == z + d || r == 1.0)
    ensures z >= 1.0 ==> r >= 1.0
  {
    if d < 0.0 && z + d < 1.0 then 1.0 else z + d
  }

  /** The window width after the deltas `ds`, applied in order. */
  function WinWidthAfter(w: real, ds: seq<real>): (r: real)
    decreases |ds|
  {
    if ds == [] then w else WinWidthAfter(AdjustedWinWidth(w, ds[0]), ds[1..])
  }

  /** The zoom after the deltas `ds`, applied in order. */
  function ZoomAfter(z: real, ds: seq<real>): (r: real)
    decreases |ds|
  {
    if ds == [] then z else ZoomAfter(AdjustedZoom(z, ds[0]), ds[1..])
  }

  /** The window center after the deltas `ds`, applied in order. */
  function WinCenterAfter(c: real, ds: seq<real>): (r: real)
    decreases |ds|
  {
    if ds == [] then c else WinCenterAfter(c + ds[0], ds[1..])
  }

  /** The sum of the deltas `ds`. */
  function Sum(ds: seq<real>): (r: real)
    decreases |ds|
  {
    if ds == [] then 0.0 else ds[0] + Sum(ds[1..])
  }

  /** After at least one width adjustment the width is never negative. */
  lemma {:induction false} WinWidthAfterNonNegative(w: real, ds: seq<real>)
    requires w >= 0.0 || ds != []
    ensures WinWidthAfter(w, ds) >= 0.0
    decreases |ds|
  {
    if ds != [] {
      WinWidthAfterNonNegative(AdjustedWinWidth(w, ds[0]), ds[1..]);
    }
  }

  /** From a zoom of at least 1.0, no sequence of deltas takes it below 1.0. */
  lemma {:induction false} ZoomAfterAtLeastOne(z: real, ds: seq<real>)
    requires z >= 1.0
    ensures ZoomAfter(z, ds) >= 1.0
    decreases |ds|
  {
    if ds != [] {
      ZoomAfterAtLeastOne(AdjustedZoom(z, ds[0]), ds[1..]);
    }
  }

  /** Center adjustments are unbounded: the center moves by exactly the sum of the deltas. */
  lemma {:induction false} WinCenterAfterIsSum(c: real, ds: seq<real>)
    ensures WinCenterAfter(c, ds) == c + Sum(ds)
    decreases |ds|
  {
    if ds != [] {
      WinCenterAfterIsSum(c + ds[0], ds[1..]);
    }
  }
}
