# TargetDetectionDemo: a Dafny model of the target-detection activity

TargetDetectionDemo is an Android demo that tracks a brightly coloured ball
with the phone camera and steers a robot towards it. Everything of interest
happens in one activity, `TargetDetectionActivity`. This project models the
parts of it that are not library calls:

- **Calibration.** The user presses a button. The activity averages the
  colour of a small rectangle near the centre of the current frame, in
  full-range HSV. From that mean it derives a threshold window: hue ± 25
  clamped to 0..255, saturation and value ± 50, alpha 0..255.
- **Camera start.** The activity installs the initial orange thresholds,
  records the resolution and derives the sampling rectangle.
- **Per frame, while the follow toggle is on.** The activity keeps the
  contour of largest area. It sends the robot a drive command: speed 150,
  angle `360 * (1 - x / width)`, where `x` is the centre of that contour's
  enclosing circle. It also draws circles around the target into the stored
  frame. When no contour has a positive area it sends stop.
- **Per frame, while the follow toggle is off.** The activity draws the
  calibration marker, a green outline 5 pixels thick, into the stored frame.
  Calibration later samples that same stored frame.

The Dafny modules follow this structure:

- `Imaging`: pixels, frames, sub-matrix extraction and the channel sums.
- `Calibration`: the rectangle geometry, the mean colour (including the
  in-place division loop) and the threshold window, with lemmas about them.
- `Overlay`: the calibration marker drawn into the frame, and where it
  meets the sampled rectangle.
- `Steering`: target selection (the largest-area scan), the steering angle
  and the per-frame decision.
- `TargetDetection`: the activity as a class whose fields are those the
  source mutates:
  - the frame;
  - the two threshold scalars, as `array<real>`, because the source writes
    `val[i]` in place;
  - the resolution;
  - the follow flag;
  - the sampling rectangle, a `Rect` object;
  - the log of commands sent to the robot.

Modelling conventions:

- Java doubles are `real`.
- The rectangle and the resolution are `int`. Java's `/` on them agrees with
  Dafny's, because the operands are non-negative.
- A contour is its area plus the x-coordinate of its minimal enclosing
  circle's centre, in the quarter-size frame the contours are found in.
- The RGB-to-HSV conversion is a function parameter `hsvOf`.

Where the code and its description differ, the model follows the code:

- **The steering angle reaches 360.** A target at the left edge
  (`center.x == 0`) gives exactly 360, so the angle lies in [0, 360]
  (`SteeringEndpoints`), not in [0, 360).
- **The initial lower hue is -40.** It is below 0, so the initial window
  does not follow the clamping rule that calibration applies.
- **The initial alpha window is 0..0.** The three-component scalars at
  lines 148-149 pad the fourth component with 0, so both initial alpha
  bounds are 0. Calibration sets the alpha window to 0..255.
- **Calibration samples the marker.**
  - The sampled rectangle has corner `(x, y) = (w/2 - w/16, h/2 + h/16)`
    and size `w/16 × h/16`. It ends on the middle column and lies below the
    middle row, so its first row is row `y`.
  - The marker drawn while not following runs from `(x, y)` to
    `(x + 2·width, y - 2·height)`, so its bottom edge lies on row `y`.
  - The marker is drawn 5 pixels thick into the frame that calibration
    samples. The top three rows of the sampled rectangle therefore hold
    the marker colour (`SampledRowsUnderMarker`,
    `CalibrationSamplesMarker`).
  - For a 640×480 camera that is 120 of the 1200 sampled pixels, so the
    mean colour of a uniform scene is pulled towards the marker colour.

## Model

The source path in every row is relative to the repository root.

| member | source | states |
|---|---|---|
| Imaging.Submat | app/src/main/java/com/example/fabio/targetdetectiondemo/TargetDetectionActivity.java:200 | Extracting the sampling rectangle from a frame it fits in gives a region with exactly `height` rows of `width` pixels each |
| Imaging.SubmatPixel | app/src/main/java/com/example/fabio/targetdetectiondemo/TargetDetectionActivity.java:200 | Pixel (i, j) of the extracted region is pixel (y+i, x+j) of the frame |
| Imaging.BlankFrame | app/src/main/java/com/example/fabio/targetdetectiondemo/TargetDetectionActivity.java:141 | The frame buffer allocated at camera start is well formed and has the camera's size |
| Imaging.Paint | app/src/main/java/com/example/fabio/targetdetectiondemo/TargetDetectionActivity.java:188-189 | The painted frame keeps the size of the original. Every pixel the drawing covers takes the drawing colour, and every other pixel is unchanged |
| Imaging.SumElems | app/src/main/java/com/example/fabio/targetdetectiondemo/TargetDetectionActivity.java:207 | The summed scalar has four components, and the fourth is 0 because the converted matrix has three channels |
| Imaging.RowSumBounds | app/src/main/java/com/example/fabio/targetdetectiondemo/TargetDetectionActivity.java:207 | A channel summed over one row lies between 0 and 255 times the row length |
| Imaging.RegionSumBounds | app/src/main/java/com/example/fabio/targetdetectiondemo/TargetDetectionActivity.java:207 | A channel summed over a `rows × cols` region lies between 0 and 255 times the pixel count |
| Imaging.RowSumUniform | app/src/main/java/com/example/fabio/targetdetectiondemo/TargetDetectionActivity.java:207 | A row of identical converted pixels sums to its length times the channel value |
| Imaging.RegionSumUniform | app/src/main/java/com/example/fabio/targetdetectiondemo/TargetDetectionActivity.java:207 | A region of identical converted pixels sums, per channel, to the pixel count times the channel value |
| Calibration.RegionWidth | app/src/main/java/com/example/fabio/targetdetectiondemo/TargetDetectionActivity.java:160 | The rectangle width is the largest `w` with `16·w ≤ cols` |
| Calibration.RegionHeight | app/src/main/java/com/example/fabio/targetdetectiondemo/TargetDetectionActivity.java:161 | The rectangle height is the largest `h` with `16·h ≤ rows` |
| Calibration.RegionX | app/src/main/java/com/example/fabio/targetdetectiondemo/TargetDetectionActivity.java:163 | The left edge is non-negative, and the rectangle ends exactly on the middle column, inside the frame |
| Calibration.RegionY | app/src/main/java/com/example/fabio/targetdetectiondemo/TargetDetectionActivity.java:164 | The top edge is at or below the middle row, and the rectangle's bottom stays inside the frame |
| Calibration.RegionInsideFrame | app/src/main/java/com/example/fabio/targetdetectiondemo/TargetDetectionActivity.java:158-164 | The rectangle derived from a resolution passes the sub-matrix bounds test for every frame of that resolution |
| Calibration.RegionNonEmptyIff | app/src/main/java/com/example/fabio/targetdetectiondemo/TargetDetectionActivity.java:160-161 | The rectangle holds a pixel if and only if both dimensions are at least 16 |
| Calibration.Average | app/src/main/java/com/example/fabio/targetdetectiondemo/TargetDetectionActivity.java:209-212 | Each mean component times the pixel count gives back that channel's sum |
| Calibration.DivideByPointCount | app/src/main/java/com/example/fabio/targetdetectiondemo/TargetDetectionActivity.java:211-212 | The in-place loop leaves the scalar equal to the mean of its old contents |
| Calibration.MeanColor | app/src/main/java/com/example/fabio/targetdetectiondemo/TargetDetectionActivity.java:207-212 | The scalar computed by summing and then dividing is the mean colour of the region |
| Calibration.MeanInByteRange | app/src/main/java/com/example/fabio/targetdetectiondemo/TargetDetectionActivity.java:207-212 | Every component of the mean colour of a non-empty region lies in 0..255 |
| Calibration.UniformRegionMean | app/src/main/java/com/example/fabio/targetdetectiondemo/TargetDetectionActivity.java:207-212 | The mean colour of a uniformly coloured region is that colour, padded with 0 for the fourth component |
| Calibration.UniformChannelMean | app/src/main/java/com/example/fabio/targetdetectiondemo/TargetDetectionActivity.java:207-212 | The same fact as UniformRegionMean, for one channel |
| Calibration.HueMin | app/src/main/java/com/example/fabio/targetdetectiondemo/TargetDetectionActivity.java:227 | The lower hue bound is never negative, is at least hue - 25, and is either hue - 25 or the clamp 0 |
| Calibration.HueMax | app/src/main/java/com/example/fabio/targetdetectiondemo/TargetDetectionActivity.java:228 | The upper hue bound never exceeds 255, is at most hue + 25, and is either hue + 25 or the clamp 255 |
| Calibration.CalibratedLower | app/src/main/java/com/example/fabio/targetdetectiondemo/TargetDetectionActivity.java:224-239 | The lower threshold has four components |
| Calibration.CalibratedUpper | app/src/main/java/com/example/fabio/targetdetectiondemo/TargetDetectionActivity.java:224-240 | The upper threshold has four components |
| Calibration.HueWindowInRange | app/src/main/java/com/example/fabio/targetdetectiondemo/TargetDetectionActivity.java:226-228 | For a hue in 0..255 the hue window brackets the hue and stays within 0..255 |
| Calibration.HueWindowOrderedIff | app/src/main/java/com/example/fabio/targetdetectiondemo/TargetDetectionActivity.java:227-228 | The clamped hue bounds are in order if and only if the hue lies in -25..280 |
| Calibration.SatValWindow | app/src/main/java/com/example/fabio/targetdetectiondemo/TargetDetectionActivity.java:233-237 | The saturation and value windows are the mean ± 50, unclamped, and contain the mean strictly inside |
| Calibration.AlphaWindowFixed | app/src/main/java/com/example/fabio/targetdetectiondemo/TargetDetectionActivity.java:239-240 | The alpha window is 0..255 whatever was sampled |
| Calibration.CalibratedWindowOrdered | app/src/main/java/com/example/fabio/targetdetectiondemo/TargetDetectionActivity.java:224-240 | A mean hue in 0..255 gives an ordered window whose hue bounds lie in 0..255 |
| Calibration.RegionWindowOrdered | app/src/main/java/com/example/fabio/targetdetectiondemo/TargetDetectionActivity.java:207-240 | Calibrating from any non-empty region gives an ordered window with hue bounds in 0..255 |
| Calibration.UniformCalibrationExample | app/src/main/java/com/example/fabio/targetdetectiondemo/TargetDetectionActivity.java:207-240 | A region uniformly HSV (100, 150, 150) calibrates to (75, 100, 100, 0)..(125, 200, 200, 255) |
| Overlay.DrawMarker | app/src/main/java/com/example/fabio/targetdetectiondemo/TargetDetectionActivity.java:188-189 | Drawing the marker keeps the frame's size |
| Overlay.MarkerPixel | app/src/main/java/com/example/fabio/targetdetectiondemo/TargetDetectionActivity.java:188-189 | After the marker is drawn, a pixel is green if it lies within 2 pixels of the outline from `(x, y)` to `(x + 2·width, y - 2·height)`, and keeps the camera image otherwise |
| Overlay.SampledRowsUnderMarker | app/src/main/java/com/example/fabio/targetdetectiondemo/TargetDetectionActivity.java:188-189 | For a sampled pixel (i, j) of a rectangle inside the frame, once that rectangle's marker is drawn: the pixel is green if and only if i < 3; otherwise it is the camera pixel |
| Steering.MaxArea | app/src/main/java/com/example/fabio/targetdetectiondemo/TargetDetectionActivity.java:271-288 | The largest area the scan keeps is non-negative, bounds every contour's area, and is 0 or the area of some contour |
| Steering.LargestContour | app/src/main/java/com/example/fabio/targetdetectiondemo/TargetDetectionActivity.java:273-288 | No contour is kept if and only if no area is positive. Otherwise the kept contour has the maximum area, and every earlier contour's area is strictly smaller, so the first of tied contours wins |
| Steering.SelectLargest | app/src/main/java/com/example/fabio/targetdetectiondemo/TargetDetectionActivity.java:271-288 | The loop ends with the largest area and the kept contour that the two functions above characterise |
| Steering.LargestContourUnique | app/src/main/java/com/example/fabio/targetdetectiondemo/TargetDetectionActivity.java:271-288 | A positive, maximal contour that is strictly larger than every contour before it is the one the scan keeps |
| Steering.FirstOfTiedContoursWins | app/src/main/java/com/example/fabio/targetdetectiondemo/TargetDetectionActivity.java:281 | Of the areas 3, 7, 7, 2 the scan keeps the first 7, because replacement needs a strictly larger area |
| Steering.SteeringAngle | app/src/main/java/com/example/fabio/targetdetectiondemo/TargetDetectionActivity.java:314 | A centre within the frame gives an angle within 0..360 |
| Steering.SteeringEndpoints | app/src/main/java/com/example/fabio/targetdetectiondemo/TargetDetectionActivity.java:314 | The left edge steers at 360, the middle at 180 and the right edge at 0 |
| Steering.SteeringDecreasing | app/src/main/java/com/example/fabio/targetdetectiondemo/TargetDetectionActivity.java:314 | The angle strictly decreases as the target moves right |
| Steering.FollowDecision | app/src/main/java/com/example/fabio/targetdetectiondemo/TargetDetectionActivity.java:291-319 | The robot is told to stop if and only if no contour has a positive area. Otherwise it drives at 150 towards the kept contour's centre, scaled by 4 |
| Steering.NoContoursStops | app/src/main/java/com/example/fabio/targetdetectiondemo/TargetDetectionActivity.java:291-318 | With no contours at all the robot is told to stop |
| Steering.SteeringExample | app/src/main/java/com/example/fabio/targetdetectiondemo/TargetDetectionActivity.java:314 | On a 640-column frame, x = 0, 320 and 640 steer at 360, 180 and 0 |
| TargetDetection.Rect.constructor | app/src/main/java/com/example/fabio/targetdetectiondemo/TargetDetectionActivity.java:158-164 | A rectangle holds the corner and size it is built with |
| TargetDetection.TargetDetectionActivity.constructor | app/src/main/java/com/example/fabio/targetdetectiondemo/TargetDetectionActivity.java:54 | A new activity is not following and has sent nothing |
| TargetDetection.TargetDetectionActivity.OnCameraViewStarted | app/src/main/java/com/example/fabio/targetdetectiondemo/TargetDetectionActivity.java:138-167 | Camera start installs thresholds (-40, 110, 170, 0)..(24, 261, 256, 0). It records the resolution and allocates a frame of that size. The rectangle becomes `(w/2 - w/16, h/2 + h/16)`, sized `w/16 × h/16`. The follow flag and the sent commands are untouched, and the activity invariant holds |
| TargetDetection.TargetDetectionActivity.SetFollow | app/src/main/java/com/example/fabio/targetdetectiondemo/TargetDetectionActivity.java:92-97 | The toggle sets the follow flag to the button state and changes nothing else |
| TargetDetection.TargetDetectionActivity.OnCameraFrame | app/src/main/java/com/example/fabio/targetdetectiondemo/TargetDetectionActivity.java:176-193 | The input frame is stored with the overlays drawn into it. While following, exactly one command, the follow decision, is sent. A drive command also draws the target circles into the stored frame; a stop command leaves it as captured. While not following, no command is sent and the stored frame carries the calibration marker. The thresholds are unchanged |
| TargetDetection.TargetDetectionActivity.FollowTarget | app/src/main/java/com/example/fabio/targetdetectiondemo/TargetDetectionActivity.java:250-320 | Exactly one command is appended to the robot log: the follow decision for the contours. The target circles are drawn into the stored frame if and only if that decision is a drive |
| TargetDetection.TargetDetectionActivity.GetHsv | app/src/main/java/com/example/fabio/targetdetectiondemo/TargetDetectionActivity.java:198-215 | The outcome is out-of-bounds if and only if the rectangle does not fit the frame, and empty-region if and only if it fits but has no pixel. Those outcomes leave the thresholds alone. On success the thresholds are the window derived from the sampled mean colour. That window is ordered, with hue bounds in 0..255 |
| TargetDetection.TargetDetectionActivity.SetHsvRange | app/src/main/java/com/example/fabio/targetdetectiondemo/TargetDetectionActivity.java:222-241 | The thresholds become the lower and upper window of the given colour: hue ± 25 clamped, saturation and value ± 50, alpha 0..255 |
| TargetDetection.TargetDetectionActivity.CalibrationSamplesMarker | app/src/main/java/com/example/fabio/targetdetectiondemo/TargetDetectionActivity.java:188-200 | After a camera-sized frame is processed while not following, the top three rows of the region that calibration samples hold the marker colour |
| TargetDetection.TargetDetectionActivity.SampledRectInsideCameraFrame | app/src/main/java/com/example/fabio/targetdetectiondemo/TargetDetectionActivity.java:158-164 | Every frame of the camera's resolution contains the sampling rectangle, so calibration on such a frame is never out of bounds |

## Left out

- **OpenCV image operations.** `pyrDown`, `cvtColor`, `inRange`, `dilate`,
  `erode` and `findContours` (lines 253-269) are library calls.
  - Their results enter the model as inputs: the contour list, as
    `(area, centre x)` pairs, and the colour conversion `hsvOf`.
  - The model does not check that the contours come from the current
    thresholds.
- **Scaling before the enclosing circle** (lines 294-305). The source scales
  the contour points by 4 and then fits the enclosing circle. The model
  scales the centre of the circle fitted in the reduced frame. This assumes
  the two commute, which is exact for a similarity transform but ignores
  float rounding.
- TargetDetection.TargetDetectionActivity.OnCameraFrame: the marker outline
  (lines 188-189) is modelled as every pixel within 2 pixels of the
  rectangle's edges. OpenCV's rounded corners are not modelled. Along the
  bottom edge, where the outline meets the sampled rectangle, a 5-pixel
  line covers the rows from 2 above to 2 below the edge. So, as in the
  source, calibration samples the marker's pixels.
- TargetDetection.TargetDetectionActivity.FollowTarget: the two circles
  drawn around the target (lines 307-311) are rasterised by the library.
  They enter the model as the parameter `targetPixels`, the set of pixels
  those circles cover, which is painted in the overlay colour. The model does
  not relate that set to the enclosing circle's centre and radius.
- **The returned display frame.** The frame returned to the camera view
  (line 192) is the stored frame, so it is not modelled separately.
- **The robot transport.** The `Robot` class and its network connection
  (line 166) are not part of this model. Commands sent to the robot are
  appended to the `robotLog` field instead.
- **The Android shell.** The UI, the Toast messages (lines 243-244), the
  lifecycle callbacks (`onPause`, `onResume`, `onDestroy`, the loader
  callback) and `onCameraViewStopped` are not modelled.
- **The race.** The camera thread and the UI thread both touch the frame,
  the thresholds and `follow`. The model runs each callback atomically.
- **Doubles.** Reals replace IEEE doubles, so rounding is not modelled.
- TargetDetection.TargetDetectionActivity.GetHsv: a rectangle holding no
  pixel (a resolution below 16 in either dimension) makes the source divide
  0 by 0, so every mean component is NaN. Both comparisons at lines 227-228
  are then false, so the hue clamps apply. The source would install
  (0, NaN, NaN, 0)..(255, NaN, NaN, 255): only the saturation and value
  bounds are NaN. The colour conversion of an empty region may instead be
  rejected by the library. The model reports `EmptyRegion` and leaves the
  thresholds unchanged.
- TargetDetection.TargetDetectionActivity.GetHsv: when the rectangle does
  not fit the frame, the source's `submat` throws. The model reports
  `OutOfBounds` instead.
- TargetDetection.TargetDetectionActivity.OnCameraViewStarted: requires a
  positive resolution, which a started camera has. A zero width would make
  the steering angle a division by zero in the source.
- TargetDetection.TargetDetectionActivity.OnCameraViewStarted: the pixels
  of the freshly allocated frame buffer are left uninitialised in the
  source. The model fills them with zeros. Its contract states only the size
  of that buffer, and no property depends on the pixels.
- TargetDetection.TargetDetectionActivity.OnCameraViewStarted: the other
  work matrices (lines 142-146) only feed library calls, so they are not
  modelled. `CONTOUR_COLOR` (line 151) is the constant `ContourColor`.
- TargetDetection.TargetDetectionActivity.SetHsvRange: requires that the
  colour scalar is a different object from the two thresholds. That always
  holds in the source, where it is a fresh sum.
- TargetDetection.Rect.constructor: the source builds an empty `Rect` and
  then assigns its four fields. The model builds it with the four values.
- **Calibration before the first frame.** Calling calibration before the
  camera has started would dereference null fields in the source. The
  model's methods require the started-camera invariant `Valid()` instead.
