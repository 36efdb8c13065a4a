/** The calibration step: the sampling rectangle derived from the camera
    resolution, the mean colour of the sampled region, and the HSV threshold
    window derived from that mean. */
module Calibration {
  import opened Imaging

  // ---------------------------------------------------------------------
  // Sampling rectangle
  // ---------------------------------------------------------------------

  /** Width of the sampling rectangle: a sixteenth of the frame width, rounded down. */
  function RegionWidth(cols: int): (w: int)
    requires cols >= 0
    ensures 0 <= w && 16 * w <= cols < 16 * (w + 1)
  {
    cols / 16
  }

  /** Height of the sampling rectangle: a sixteenth of the frame height, rounded down. */
  function RegionHeight(rows: int): (h: int)
    requires rows >= 0
    ensures 0 <= h && 16 * h <= rows < 16 * (h + 1)
  {
    rows / 16
  }

  /** Left edge of the sampling rectangle: one rectangle width left of the
      middle column, so that the rectangle ends on the middle column. */
  function RegionX(cols: int): (x: int)
    requires cols >= 0
    ensures 0 <= x && x + RegionWidth(cols) <= cols
    ensures x + RegionWidth(cols) == cols / 2
  {
    cols / 2 - RegionWidth(cols)
  }

  /** Top edge of the sampling rectangle: one rectangle height below the middle row. */
  function RegionY(rows: int): (y: int)
    requires rows >= 0
    ensures rows / 2 <= y && y + RegionHeight(rows) <= rows
  {
    rows / 2 + RegionHeight(rows)
  }

  /** The sampling rectangle fits inside every frame of the resolution it was
      computed from, which is what the sub-matrix extraction checks. */
  lemma RegionInsideFrame(f: Frame)
    ensures RectInside(RegionX(f.cols), RegionY(f.rows), RegionWidth(f.cols), RegionHeight(f.rows), f)
  {
  }

  /** The sampling rectangle holds at least one pixel exactly when both
      dimensions of the frame are at least 16. */
  lemma RegionNonEmptyIff(cols: nat, rows: nat)
    ensures RegionWidth(cols) * RegionHeight(rows) > 0 <==> cols >= 16 && rows >= 16
  {
    var w, h := RegionWidth(cols), RegionHeight(rows);
    if w > 0 && h > 0 {
      assert w * h > 0 by { assert w * h >= w; }
    }
  }

  // ---------------------------------------------------------------------
  // Mean colour of the sampled region
  // ---------------------------------------------------------------------

  /** Each channel sum divided by the pixel count. */
  function Average(sums: seq<real>, pointCount: int): (mean: seq<real>)
    requires pointCount != 0
    ensures |mean| == |sums|
    ensures forall i :: 0 <= i < |sums| ==> mean[i] * pointCount as real == sums[i]
  {
    seq(|sums|, i requires 0 <= i < |sums| => sums[i] / pointCount as real)
  }

  /** Divide every channel sum, in place, by the pixel count. */
  method DivideByPointCount(hsv: array<real>, pointCount: int)
    requires pointCount != 0
    modifies hsv
    ensures hsv[..] == Average(old(hsv[..]), pointCount)
  {
    for i := 0 to hsv.Length
      invariant forall k :: 0 <= k < i ==> hsv[k] == old(hsv[k]) / pointCount as real
      invariant forall k :: i <= k < hsv.Length ==> hsv[k] == old(hsv[k])
    {
      hsv[i] := hsv[i] / pointCount as real;
    }
  }

  /** The mean colour of a non-empty region, as a fresh four-component
      scalar: the channel sums divided in place by the pixel count. */
  method MeanColor(region: seq<seq<Rgba>>, cols: nat, hsvOf: Rgba -> Hsv) returns (hsv: array<real>)
    requires Rectangular(region, cols) && |region| * cols > 0
    ensures fresh(hsv)
    ensures hsv[..] == Average(SumElems(region, hsvOf), |region| * cols)
  {
    var sums := SumElems(region, hsvOf);
    hsv := new real[] [sums[0], sums[1], sums[2], sums[3]];
    assert hsv[..] == sums;
    DivideByPointCount(hsv, |region| * cols);
  }

  /** The mean colour of any non-empty region has every channel within the
      byte range 0..255; in particular the mean hue does. */
  lemma MeanInByteRange(region: seq<seq<Rgba>>, cols: nat, hsvOf: Rgba -> Hsv)
    requires Rectangular(region, cols) && |region| * cols > 0
    ensures forall c :: 0 <= c < 4 ==> 0.0 <= Average(SumElems(region, hsvOf), |region| * cols)[c] <= 255.0
  {
    var n := |region| * cols;
    var mean := Average(SumElems(region, hsvOf), n);
    forall c | 0 <= c < 4 ensures 0.0 <= mean[c] <= 255.0 {
      if c < 3 {
        RegionSumBounds(region, cols, hsvOf, c);
        assert SumElems(region, hsvOf)[c] == RegionSum(region, hsvOf, c) as real;
        QuotientInByteRange(RegionSum(region, hsvOf, c) as real, n as real, mean[c]);
      }
    }
  }

  lemma QuotientInByteRange(sum: real, n: real, q: real)
    requires n > 0.0 && q * n == sum && 0.0 <= sum <= 255.0 * n
    ensures 0.0 <= q <= 255.0
  {
    if q > 255.0 {
      PositiveProduct(q - 255.0, n);
    }
    if q < 0.0 {
      PositiveProduct(-q, n);
    }
  }

  lemma PositiveProduct(a: real, b: real)
    requires a > 0.0 && b > 0.0
    ensures a * b > 0.0
  {
  }

  /** A region whose every pixel converts to the same HSV colour `p` has
      mean colour `p`, because the sums are divided by the pixel count. */
  lemma UniformRegionMean(region: seq<seq<Rgba>>, cols: nat, hsvOf: Rgba -> Hsv, p: Hsv)
    requires Rectangular(region, cols) && |region| * cols > 0
    requires forall i, j :: 0 <= i < |region| && 0 <= j < cols ==> hsvOf(region[i][j]) == p
    ensures Average(SumElems(region, hsvOf), |region| * cols) == [p.h as real, p.s as real, p.v as real, 0.0]
  {
    UniformChannelMean(region, cols, hsvOf, p, 0);
    UniformChannelMean(region, cols, hsvOf, p, 1);
    UniformChannelMean(region, cols, hsvOf, p, 2);
  }

  lemma UniformChannelMean(region: seq<seq<Rgba>>, cols: nat, hsvOf: Rgba -> Hsv, p: Hsv, c: nat)
    requires Rectangular(region, cols) && |region| * cols > 0 && c < 3
    requires forall i, j :: 0 <= i < |region| && 0 <= j < cols ==> hsvOf(region[i][j]) == p
    ensures Average(SumElems(region, hsvOf), |region| * cols)[c] == Component(p, c) as real
  {
    var n := |region| * cols;
    var q := Average(SumElems(region, hsvOf), n)[c];
    assert q * n as real == RegionSum(region, hsvOf, c) as real;
    RegionSumUniform(region, cols, hsvOf, c, p);
    Cancel(q, n, Component(p, c));
  }

  lemma Cancel(q: real, n: int, x: int)
    requires n > 0 && q * n as real == (n * x) as real
    ensures q == x as real
  {
    assert (n * x) as real == n as real * x as real;
  }

  // ---------------------------------------------------------------------
  // Threshold window
  // ---------------------------------------------------------------------

  /** Half-widths of the window around the sampled colour, per channel:
      hue, saturation, value, alpha. */
  const ColorRadius: seq<real> := [25.0, 50.0, 50.0, 0.0]

  /** Lower hue bound: the mean hue less the radius, or 0 when that would be negative. */
  function HueMin(h: real): (lo: real)
    ensures lo >= 0.0 && lo >= h - ColorRadius[0]
    ensures lo == 0.0 || lo == h - ColorRadius[0]
  {
    if h >= ColorRadius[0] then h - ColorRadius[0] else 0.0
  }

  /** Upper hue bound: the mean hue plus the radius, or 255 when that would exceed 255. */
  function HueMax(h: real): (hi: real)
    ensures hi <= 255.0 && hi <= h + ColorRadius[0]
    ensures hi == 255.0 || hi == h + ColorRadius[0]
  {
    if h + ColorRadius[0] <= 255.0 then h + ColorRadius[0] else 255.0
  }

  /** The lower threshold derived from a mean colour (hue, saturation, value, alpha). */
  function CalibratedLower(c: seq<real>): (lower: seq<real>)
    requires |c| == 4
    ensures |lower| == 4
  {
    [HueMin(c[0]), c[1] - ColorRadius[1], c[2] - ColorRadius[2], 0.0]
  }

  /** The upper threshold derived from a mean colour (hue, saturation, value, alpha). */
  function CalibratedUpper(c: seq<real>): (upper: seq<real>)
    requires |c| == 4
    ensures |upper| == 4
  {
    [HueMax(c[0]), c[1] + ColorRadius[1], c[2] + ColorRadius[2], 255.0]
  }

  /** Every lower component is at most the matching upper component. */
  predicate WindowOrdered(lower: seq<real>, upper: seq<real>)
    requires |lower| == 4 && |upper| == 4
  {
    forall i :: 0 <= i < 4 ==> lower[i] <= upper[i]
  }

  /** For a hue in 0..255 both hue bounds lie in 0..255 and bracket the hue. */
  lemma HueWindowInRange(h: real)
    requires 0.0 <= h <= 255.0
    ensures 0.0 <= HueMin(h) <= h <= HueMax(h) <= 255.0
  {
  }

  /** The hue bounds are in order exactly when the hue is within 25 of the
      range 0..255; further out the clamp inverts the window. */
  lemma HueWindowOrderedIff(h: real)
    ensures HueMin(h) <= HueMax(h) <==> -25.0 <= h <= 280.0
  {
  }

  /** Saturation and value windows are the mean widened by 50 either way,
      without clamping, so they always contain the mean strictly inside. */
  lemma SatValWindow(c: seq<real>)
    requires |c| == 4
    ensures forall i :: 1 <= i <= 2 ==>
      CalibratedLower(c)[i] == c[i] - 50.0 && CalibratedUpper(c)[i] == c[i] + 50.0 &&
      CalibratedLower(c)[i] < c[i] < CalibratedUpper(c)[i]
  {
  }

  /** The alpha window is 0..255 whatever alpha was sampled. */
  lemma AlphaWindowFixed(c: seq<real>)
    requires |c| == 4
    ensures CalibratedLower(c)[3] == 0.0 && CalibratedUpper(c)[3] == 255.0
  {
  }

  /** A mean whose hue lies in 0..255 gives an ordered window whose hue
      bounds lie in 0..255. */
  lemma CalibratedWindowOrdered(c: seq<real>)
    requires |c| == 4 && 0.0 <= c[0] <= 255.0
    ensures WindowOrdered(CalibratedLower(c), CalibratedUpper(c))
    ensures 0.0 <= CalibratedLower(c)[0] && CalibratedUpper(c)[0] <= 255.0
  {
    HueWindowInRange(c[0]);
  }

  /** Calibrating from the mean colour of any non-empty region gives an
      ordered window whose hue bounds lie in 0..255. */
  lemma RegionWindowOrdered(region: seq<seq<Rgba>>, cols: nat, hsvOf: Rgba -> Hsv)
    requires Rectangular(region, cols) && |region| * cols > 0
    ensures WindowOrdered(CalibratedLower(Average(SumElems(region, hsvOf), |region| * cols)),
                          CalibratedUpper(Average(SumElems(region, hsvOf), |region| * cols)))
    ensures 0.0 <= CalibratedLower(Average(SumElems(region, hsvOf), |region| * cols))[0]
    ensures CalibratedUpper(Average(SumElems(region, hsvOf), |region| * cols))[0] <= 255.0
  {
    MeanInByteRange(region, cols, hsvOf);
    CalibratedWindowOrdered(Average(SumElems(region, hsvOf), |region| * cols));
  }

  /** A uniform region of HSV colour (100, 150, 150) calibrates to the window
      (75, 100, 100, 0) .. (125, 200, 200, 255). */
  lemma UniformCalibrationExample(region: seq<seq<Rgba>>, cols: nat, hsvOf: Rgba -> Hsv)
    requires Rectangular(region, cols) && |region| * cols > 0
    requires forall i, j :: 0 <= i < |region| && 0 <= j < cols ==> hsvOf(region[i][j]) == Hsv(100, 150, 150)
    ensures CalibratedLower(Average(SumElems(region, hsvOf), |region| * cols)) == [75.0, 100.0, 100.0, 0.0]
    ensures CalibratedUpper(Average(SumElems(region, hsvOf), |region| * cols)) == [125.0, 200.0, 200.0, 255.0]
  {
    UniformRegionMean(region, cols, hsvOf, Hsv(100, 150, 150));
  }
}
