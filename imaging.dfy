/** Pixels, frames, sub-matrices and channel sums: the image values the
    calibration step reads. The colour conversion itself is a library call
    and enters the model as a function parameter `hsvOf`. */
module Imaging {

  /** One 8-bit channel value. */
  type Byte = x: int | 0 <= x < 256

  /** A pixel of the camera's four-channel colour frame. */
  datatype Rgba = Rgba(r: Byte, g: Byte, b: Byte, a: Byte)

  /** A pixel after full-range HSV conversion (hue spans 0..255).
      The converted matrix has three channels only. */
  datatype Hsv = Hsv(h: Byte, s: Byte, v: Byte)

  /** Channel `c` (0 hue, 1 saturation, 2 value) of an HSV pixel. */
  function Component(p: Hsv, c: nat): (x: int)
    ensures 0 <= x <= 255
  {
    if c == 0 then p.h
    else if c == 1 then p.s
    else if c == 2 then p.v
    else 0
  }

  /** A frame of `rows` rows, each of `cols` pixels. */
  datatype Frame = Frame(cols: nat, rows: nat, pixels: seq<seq<Rgba>>) {
    predicate Valid() {
      |pixels| == rows && forall i :: 0 <= i < rows ==> |pixels[i]| == cols
    }
  }

  /** Every row of `region` holds `cols` pixels. */
  predicate Rectangular(region: seq<seq<Rgba>>, cols: nat) {
    forall i :: 0 <= i < |region| ==> |region[i]| == cols
  }

  /** The bounds test a sub-matrix extraction makes: the rectangle with
      top-left corner (x, y) and the given size lies inside the frame. */
  predicate RectInside(x: int, y: int, width: int, height: int, f: Frame) {
    0 <= x && 0 <= width && x + width <= f.cols &&
    0 <= y && 0 <= height && y + height <= f.rows
  }

  /** The sub-matrix of `f` covering columns x .. x+width-1 and rows y .. y+height-1. */
  function Submat(f: Frame, x: int, y: int, width: int, height: int): (region: seq<seq<Rgba>>)
    requires f.Valid() && RectInside(x, y, width, height, f)
    ensures |region| == height && Rectangular(region, width)
  {
    seq(height, i requires 0 <= i < height => f.pixels[y + i][x .. x + width])
  }

  /** Pixel (i, j) of the sub-matrix is pixel (y + i, x + j) of the frame. */
  lemma SubmatPixel(f: Frame, x: int, y: int, width: int, height: int, i: int, j: int)
    requires f.Valid() && RectInside(x, y, width, height, f)
    requires 0 <= i < height && 0 <= j < width
    ensures Submat(f, x, y, width, height)[i][j] == f.pixels[y + i][x + j]
  {
  }

  /** A frame of the given size, all pixels zero. */
  function BlankFrame(cols: nat, rows: nat): (f: Frame)
    ensures f.Valid() && f.cols == cols && f.rows == rows
  {
    Frame(cols, rows, seq(rows, _ => seq(cols, _ => Rgba(0, 0, 0, 0))))
  }

  /** The colour every overlay is drawn in: opaque green. */
  const ContourColor: Rgba := Rgba(0, 255, 0, 255)

  /** `f` with every pixel (row i, column j) for which `painted(i, j)` holds
      overwritten with `color`; the size does not change. */
  function Paint(f: Frame, painted: (int, int) -> bool, color: Rgba): (g: Frame)
    requires f.Valid()
    ensures g.Valid() && g.cols == f.cols && g.rows == f.rows
    ensures forall i, j :: 0 <= i < g.rows && 0 <= j < g.cols ==>
              g.pixels[i][j] == (if painted(i, j) then color else f.pixels[i][j])
  {
    Frame(f.cols, f.rows, seq(f.rows, i requires 0 <= i < f.rows =>
      seq(f.cols, j requires 0 <= j < f.cols => if painted(i, j) then color else f.pixels[i][j])))
  }

  /** Sum of channel `c` over one row, after colour conversion. */
  function RowSum(row: seq<Rgba>, hsvOf: Rgba -> Hsv, c: nat): int
  {
    if |row| == 0 then 0 else Component(hsvOf(row[0]), c) + RowSum(row[1..], hsvOf, c)
  }

  /** Sum of channel `c` over every pixel of a region, after colour conversion. */
  function RegionSum(region: seq<seq<Rgba>>, hsvOf: Rgba -> Hsv, c: nat): int
  {
    if |region| == 0 then 0 else RowSum(region[0], hsvOf, c) + RegionSum(region[1..], hsvOf, c)
  }

  /** The per-channel sums of the converted region, as a four-component
      scalar; the converted matrix has three channels, so the fourth sum is 0. */
  function SumElems(region: seq<seq<Rgba>>, hsvOf: Rgba -> Hsv): (sums: seq<real>)
    ensures |sums| == 4
    ensures sums[3] == 0.0
  {
    [RegionSum(region, hsvOf, 0) as real, RegionSum(region, hsvOf, 1) as real,
     RegionSum(region, hsvOf, 2) as real, 0.0]
  }

  lemma {:induction false} RowSumBounds(row: seq<Rgba>, hsvOf: Rgba -> Hsv, c: nat)
    ensures 0 <= RowSum(row, hsvOf, c) <= 255 * |row|
  {
    if |row| > 0 {
      RowSumBounds(row[1..], hsvOf, c);
    }
  }

  /** Every channel sum of a `|region|` by `cols` region lies between 0 and
      255 times the pixel count. */
  lemma {:induction false} RegionSumBounds(region: seq<seq<Rgba>>, cols: nat, hsvOf: Rgba -> Hsv, c: nat)
    requires Rectangular(region, cols)
    ensures 0 <= RegionSum(region, hsvOf, c) <= 255 * (|region| * cols)
  {
    if |region| > 0 {
      RowSumBounds(region[0], hsvOf, c);
      RegionSumBounds(region[1..], cols, hsvOf, c);
      MulStep(|region|, cols);
    }
  }

  lemma {:induction false} RowSumUniform(row: seq<Rgba>, hsvOf: Rgba -> Hsv, c: nat, p: Hsv)
    requires forall j :: 0 <= j < |row| ==> hsvOf(row[j]) == p
    ensures RowSum(row, hsvOf, c) == |row| * Component(p, c)
  {
    if |row| > 0 {
      assert hsvOf(row[0]) == p;
      RowSumUniform(row[1..], hsvOf, c, p);
    }
  }

  /** A region whose every pixel converts to `p` sums, per channel, to the
      pixel count times that channel of `p`. */
  lemma {:induction false} RegionSumUniform(region: seq<seq<Rgba>>, cols: nat, hsvOf: Rgba -> Hsv, c: nat, p: Hsv)
    requires Rectangular(region, cols)
    requires forall i, j :: 0 <= i < |region| && 0 <= j < cols ==> hsvOf(region[i][j]) == p
    ensures RegionSum(region, hsvOf, c) == (|region| * cols) * Component(p, c)
  {
    if |region| > 0 {
      var rest := region[1..];
      assert forall i, j :: 0 <= i < |rest| && 0 <= j < cols ==> hsvOf(rest[i][j]) == p by {
        forall i, j | 0 <= i < |rest| && 0 <= j < cols ensures hsvOf(rest[i][j]) == p {
          assert rest[i] == region[i + 1];
        }
      }
      RowSumUniform(region[0], hsvOf, c, p);
      RegionSumUniform(rest, cols, hsvOf, c, p);
      MulStep(|region|, cols);
      MulStep(|region| * cols, Component(p, c));
      assert ((|region| - 1) * cols) * Component(p, c) == (|region| * cols - cols) * Component(p, c);
    }
  }

  lemma MulStep(n: int, k: int)
    ensures n * k == k + (n - 1) * k
  {
  }
}
