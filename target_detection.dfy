/** The activity: its state (thresholds, sampling rectangle, camera size,
    follow flag, latest frame and the commands sent to the robot) and its
    entry points: camera start, the follow toggle, per-frame processing and
    on-demand calibration. */
module TargetDetection {
  import opened Imaging
  import opened Calibration
  import opened Steering
  import opened Overlay

  /** How a calibration request ended. `OutOfBounds`: the sampling rectangle
      does not fit in the current frame. `EmptyRegion`: it holds no pixel. */
  datatype CalibrationOutcome = Calibrated | OutOfBounds | EmptyRegion

  /** A fresh four-component scalar holding the given values. */
  method NewScalar(v0: real, v1: real, v2: real, v3: real) returns (s: array<real>)
    ensures fresh(s) && s[..] == [v0, v1, v2, v3]
  {
    s := new real[] [v0, v1, v2, v3];
  }

  /** A rectangle with mutable fields: top-left corner and size. */
  class Rect {
    var x: int
    var y: int
    var width: int
    var height: int

    /** A rectangle with the given corner and size. */
    constructor (x: int, y: int, width: int, height: int)
      ensures this.x == x && this.y == y && this.width == width && this.height == height
    {
      this.x, this.y, this.width, this.height := x, y, width, height;
    }
  }

  class TargetDetectionActivity {
    /** The most recent camera frame. */
    var frame: Frame
    /** The HSV threshold window: four components each (hue, saturation, value, alpha). */
    var lowerThreshold: array<real>
    var upperThreshold: array<real>
    /** Camera resolution, recorded when the camera starts. */
    var cameraWidth: int
    var cameraHeight: int
    /** Whether the robot follows the target. */
    var follow: bool
    /** The region of the frame that calibration samples. */
    var targetHsvRect: Rect
    /** Every command sent to the robot, oldest first. */
    var robotLog: seq<Command>

    /** The state once the camera has started: two distinct four-component
        thresholds, a positive resolution and the sampling rectangle derived
        from it. */
    ghost predicate Valid()
      reads this, targetHsvRect
    {
      frame.Valid() &&
      lowerThreshold.Length == 4 && upperThreshold.Length == 4 && lowerThreshold != upperThreshold &&
      cameraWidth > 0 && cameraHeight > 0 &&
      targetHsvRect.width == RegionWidth(cameraWidth) &&
      targetHsvRect.height == RegionHeight(cameraHeight) &&
      targetHsvRect.x == RegionX(cameraWidth) &&
      targetHsvRect.y == RegionY(cameraHeight)
    }

    /** The activity before the camera starts: not following, nothing sent. */
    constructor ()
      ensures !follow && robotLog == []
    {
      frame := Frame(0, 0, []);
      lowerThreshold := new real[0];
      upperThreshold := new real[0];
      cameraWidth, cameraHeight := 0, 0;
      follow := false;
      targetHsvRect := new Rect(0, 0, 0, 0);
      robotLog := [];
    }

    /** Camera start: allocate a frame buffer of the camera's size, install
        the initial (orange) thresholds, record the resolution and derive the
        sampling rectangle. */
    method OnCameraViewStarted(width: int, height: int)
      requires width > 0 && height > 0
      modifies this
      ensures Valid()
      ensures fresh(lowerThreshold) && fresh(upperThreshold) && fresh(targetHsvRect)
      ensures lowerThreshold[..] == [-40.0, 110.0, 170.0, 0.0]
      ensures upperThreshold[..] == [24.0, 261.0, 256.0, 0.0]
      ensures cameraWidth == width && cameraHeight == height
      ensures frame.cols == width && frame.rows == height
      ensures targetHsvRect.width == width / 16 && targetHsvRect.height == height / 16
      ensures targetHsvRect.x == width / 2 - width / 16 && targetHsvRect.y == height / 2 + height / 16
      ensures follow == old(follow) && robotLog == old(robotLog)
    {
      frame := BlankFrame(width, height);
      lowerThreshold := NewScalar(-40.0, 110.0, 170.0, 0.0);
      upperThreshold := NewScalar(24.0, 261.0, 256.0, 0.0);
      cameraWidth := width;
      cameraHeight := height;
      targetHsvRect := new Rect(RegionX(width), RegionY(height), RegionWidth(width), RegionHeight(height));
    }

    /** The follow toggle. */
    method SetFollow(isChecked: bool)
      modifies this`follow
      ensures follow == isChecked
    {
      follow := isChecked;
    }

    /** One camera frame: store it. While following, send exactly one
        command to the robot, and when it is a drive command overlay the
        target circles (`targetPixels`, the pixels the library's circle
        drawing covers) on the stored frame. While not following, send
        nothing and draw the calibration marker into the stored frame. The
        thresholds and the sampling rectangle are left alone. */
    method OnCameraFrame(input: Frame, contours: seq<Contour>, targetPixels: (int, int) -> bool)
      requires Valid() && input.Valid()
      modifies this`frame, this`robotLog
      ensures Valid()
      ensures robotLog == old(robotLog) + (if follow then [FollowDecision(contours, cameraWidth)] else [])
      ensures frame ==
                if !follow then DrawMarker(input, targetHsvRect.x, targetHsvRect.y, targetHsvRect.width, targetHsvRect.height)
                else if FollowDecision(contours, cameraWidth).Drive? then Paint(input, targetPixels, ContourColor)
                else input
      ensures lowerThreshold[..] == old(lowerThreshold[..]) && upperThreshold[..] == old(upperThreshold[..])
    {
      frame := input;
      if follow {
        FollowTarget(contours, targetPixels);
      } else {
        frame := DrawMarker(frame, targetHsvRect.x, targetHsvRect.y, targetHsvRect.width, targetHsvRect.height);
      }
    }

    /** Per-frame tracking: keep the contour of largest area and drive
        towards it, drawing the target circles into the stored frame, or
        stop when there is none. */
    method FollowTarget(contours: seq<Contour>, targetPixels: (int, int) -> bool)
      requires Valid()
      modifies this`frame, this`robotLog
      ensures Valid()
      ensures robotLog == old(robotLog) + [FollowDecision(contours, cameraWidth)]
      ensures frame ==
                if FollowDecision(contours, cameraWidth).Drive? then Paint(old(frame), targetPixels, ContourColor)
                else old(frame)
    {
      var largestArea, largest := SelectLargest(contours);
      if largestArea != 0.0 {
        var centerX := ReductionFactor * contours[largest.value].centerX;
        frame := Paint(frame, targetPixels, ContourColor);
        robotLog := robotLog + [Drive(DriveSpeed, SteeringAngle(centerX, cameraWidth))];
      } else {
        robotLog := robotLog + [Stop];
      }
    }

    /** The mean colour of the sampling rectangle in the current frame. */
    ghost function SampledMean(hsvOf: Rgba -> Hsv): seq<real>
      reads this, targetHsvRect
      requires frame.Valid()
      requires RectInside(targetHsvRect.x, targetHsvRect.y, targetHsvRect.width, targetHsvRect.height, frame)
      requires targetHsvRect.width * targetHsvRect.height != 0
    {
      var r := targetHsvRect;
      Average(SumElems(Submat(frame, r.x, r.y, r.width, r.height), hsvOf), r.width * r.height)
    }

    /** Calibration: average the colour of the sampling rectangle of the
        current frame and derive the threshold window from it. The result is
        always an ordered window whose hue bounds lie in 0..255. A rectangle
        outside the frame, or one without pixels, leaves the thresholds as
        they were. */
    method GetHsv(hsvOf: Rgba -> Hsv) returns (outcome: CalibrationOutcome)
      requires Valid()
      modifies lowerThreshold, upperThreshold
      ensures Valid()
      ensures outcome == OutOfBounds <==>
                !RectInside(targetHsvRect.x, targetHsvRect.y, targetHsvRect.width, targetHsvRect.height, frame)
      ensures outcome == EmptyRegion <==>
                RectInside(targetHsvRect.x, targetHsvRect.y, targetHsvRect.width, targetHsvRect.height, frame) &&
                targetHsvRect.width * targetHsvRect.height == 0
      ensures outcome != Calibrated ==>
                lowerThreshold[..] == old(lowerThreshold[..]) && upperThreshold[..] == old(upperThreshold[..])
      ensures outcome == Calibrated ==>
                lowerThreshold[..] == CalibratedLower(SampledMean(hsvOf)) &&
                upperThreshold[..] == CalibratedUpper(SampledMean(hsvOf))
      ensures outcome == Calibrated ==>
                WindowOrdered(lowerThreshold[..], upperThreshold[..]) &&
                0.0 <= lowerThreshold[0] && upperThreshold[0] <= 255.0
    {
      var r := targetHsvRect;
      if !RectInside(r.x, r.y, r.width, r.height, frame) {
        return OutOfBounds;
      }
      var region := Submat(frame, r.x, r.y, r.width, r.height);
      var pointCount := r.width * r.height;
      if pointCount == 0 {
        return EmptyRegion;
      }
      assert |region| * r.width == pointCount;
      var hsv := MeanColor(region, r.width, hsvOf);
      assert hsv[..] == SampledMean(hsvOf);
      RegionWindowOrdered(region, r.width, hsvOf);
      SetHsvRange(hsv);
      return Calibrated;
    }

    /** Install the threshold window derived from a mean colour: hue widened
        by 25 and clamped to 0..255, saturation and value widened by 50
        without clamping, alpha fixed at 0..255. */
    method SetHsvRange(hsvColor: array<real>)
      requires Valid() && hsvColor.Length == 4
      requires hsvColor != lowerThreshold && hsvColor != upperThreshold
      modifies lowerThreshold, upperThreshold
      ensures Valid()
      ensures lowerThreshold[..] == CalibratedLower(hsvColor[..])
      ensures upperThreshold[..] == CalibratedUpper(hsvColor[..])
    {
      lowerThreshold[0] := HueMin(hsvColor[0]);
      upperThreshold[0] := HueMax(hsvColor[0]);

      lowerThreshold[1] := hsvColor[1] - ColorRadius[1];
      upperThreshold[1] := hsvColor[1] + ColorRadius[1];

      lowerThreshold[2] := hsvColor[2] - ColorRadius[2];
      upperThreshold[2] := hsvColor[2] + ColorRadius[2];

      lowerThreshold[3] := 0.0;
      upperThreshold[3] := 255.0;
    }

    /** After a frame processed while not following, calibration samples
        the marker: the top three rows of the sampled rectangle hold the
        marker colour, not the camera image. */
    lemma CalibrationSamplesMarker(input: Frame, i: int, j: int)
      requires Valid() && input.Valid() && input.cols == cameraWidth && input.rows == cameraHeight
      requires frame == DrawMarker(input, targetHsvRect.x, targetHsvRect.y, targetHsvRect.width, targetHsvRect.height)
      requires 0 <= i < 3 && i < targetHsvRect.height && 0 <= j < targetHsvRect.width
      ensures RectInside(targetHsvRect.x, targetHsvRect.y, targetHsvRect.width, targetHsvRect.height, frame)
      ensures Submat(frame, targetHsvRect.x, targetHsvRect.y, targetHsvRect.width, targetHsvRect.height)[i][j] == ContourColor
    {
      SampledRectInsideCameraFrame(input);
      SampledRowsUnderMarker(input, targetHsvRect.x, targetHsvRect.y, targetHsvRect.width, targetHsvRect.height, i, j);
    }

    /** Every frame of the camera's resolution contains the sampling
        rectangle, so calibration against such a frame never reports
        `OutOfBounds`. */
    lemma SampledRectInsideCameraFrame(f: Frame)
      requires Valid() && f.cols == cameraWidth && f.rows == cameraHeight
      ensures RectInside(targetHsvRect.x, targetHsvRect.y, targetHsvRect.width, targetHsvRect.height, f)
    {
      RegionInsideFrame(f);
    }
  }
}
