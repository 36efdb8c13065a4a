/** The calibration marker the activity draws into the stored camera frame
    while it is not following, and where that marker meets the sampled
    rectangle. */
module Overlay {
  import opened Imaging
  import opened Calibration

  /** Whether pixel (row, col) is covered by the outline of the rectangle
      with columns left .. right and rows top .. bottom, drawn 5 pixels
      thick: it lies within 2 pixels of the outline. */
  predicate OnOutline(row: int, col: int, left: int, top: int, right: int, bottom: int) {
    left - 2 <= col <= right + 2 && top - 2 <= row <= bottom + 2 &&
    !(left + 2 < col < right - 2 && top + 2 < row < bottom - 2)
  }

  /** The marker drawn for the sampling rectangle (x, y, width, height): an
      outline from corner (x, y) to corner (x + 2 width, y - 2 height), so
      its bottom edge runs along row y. */
  function DrawMarker(f: Frame, x: int, y: int, width: int, height: int): (g: Frame)
    requires f.Valid()
    ensures g.Valid() && g.cols == f.cols && g.rows == f.rows
  {
    Paint(f, (row, col) => OnOutline(row, col, x, y - 2 * height, x + 2 * width, y), ContourColor)
  }

  /** A pixel of the frame once the marker is drawn: the marker colour on
      the outline, the camera image elsewhere. */
  lemma MarkerPixel(f: Frame, x: int, y: int, width: int, height: int, row: int, col: int)
    requires f.Valid() && 0 <= row < f.rows && 0 <= col < f.cols
    ensures DrawMarker(f, x, y, width, height).pixels[row][col] ==
              if OnOutline(row, col, x, y - 2 * height, x + 2 * width, y) then ContourColor else f.pixels[row][col]
  {
  }

  /** The marker and the rectangle it is drawn for overlap: once the marker
      is drawn, the top three rows of the rectangle are marker-coloured, and
      every other pixel of the rectangle still shows the camera image. */
  lemma SampledRowsUnderMarker(f: Frame, x: int, y: int, width: int, height: int, i: int, j: int)
    requires f.Valid() && RectInside(x, y, width, height, f)
    requires 0 <= i < height && 0 <= j < width
    ensures Submat(DrawMarker(f, x, y, width, height), x, y, width, height)[i][j] ==
            if i < 3 then ContourColor else f.pixels[y + i][x + j]
  {
    SubmatPixel(DrawMarker(f, x, y, width, height), x, y, width, height, i, j);
    MarkerPixel(f, x, y, width, height, y + i, x + j);
    assert OnOutline(y + i, x + j, x, y - 2 * height, x + 2 * width, y) <==> i < 3;
  }
}
