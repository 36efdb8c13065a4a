/** Target selection and the steering command derived from it.

    A contour enters the model through what the per-frame pipeline computes
    from it: its area, and the x-coordinate of the centre of its minimal
    enclosing circle in the reduced frame. The image operations that produce
    these values are library calls outside the model. */
module Steering {

  datatype Option<T> = None | Some(value: T)

  /** A contour of the reduced (quarter-size) mask. */
  datatype Contour = Contour(area: real, centerX: real)

  /** A command to the robot. */
  datatype Command = Drive(speed: int, angle: real) | Stop

  /** Forward speed of every drive command. */
  const DriveSpeed: int := 150

  /** The per-frame pipeline halves the frame twice, so contour coordinates
      are scaled by 4 to return to full resolution. */
  const ReductionFactor: real := 4.0

  // ---------------------------------------------------------------------
  // Blob selection
  // ---------------------------------------------------------------------

  /** The largest area seen while scanning the contours in order, starting
      from 0: the maximum of 0 and every area. */
  function MaxArea(cs: seq<Contour>): (m: real)
    ensures m >= 0.0
    ensures forall j :: 0 <= j < |cs| ==> cs[j].area <= m
    ensures m == 0.0 || exists j :: 0 <= j < |cs| && cs[j].area == m
  {
    if |cs| == 0 then 0.0
    else
      var prefix := cs[..|cs| - 1];
      var m := MaxArea(prefix);
      assert forall j :: 0 <= j < |prefix| ==> prefix[j] == cs[j];
      if cs[|cs| - 1].area > m then cs[|cs| - 1].area else m
  }

  /** The contour the scan keeps: it is replaced only by a strictly larger
      area, so the first contour to reach the maximum wins, and there is
      none when no area is positive. */
  function LargestContour(cs: seq<Contour>): (r: Option<nat>)
    ensures r.None? <==> forall j :: 0 <= j < |cs| ==> cs[j].area <= 0.0
    ensures r.None? <==> MaxArea(cs) == 0.0
    ensures r.Some? ==> r.value < |cs| && cs[r.value].area == MaxArea(cs) &&
                        forall j :: 0 <= j < r.value ==> cs[j].area < MaxArea(cs)
  {
    if |cs| == 0 then None
    else
      var prefix := cs[..|cs| - 1];
      assert forall j :: 0 <= j < |prefix| ==> prefix[j] == cs[j];
      if cs[|cs| - 1].area > MaxArea(prefix) then Some(|cs| - 1) else LargestContour(prefix)
  }

  /** The scan over the contours, keeping the largest area so far and the
      contour that has it. */
  method SelectLargest(contours: seq<Contour>) returns (largestArea: real, largest: Option<nat>)
    ensures largestArea == MaxArea(contours)
    ensures largest == LargestContour(contours)
  {
    largestArea := 0.0;
    largest := None;
    for i := 0 to |contours|
      invariant largestArea == MaxArea(contours[..i])
      invariant largest == LargestContour(contours[..i])
    {
      assert contours[..i + 1][..i] == contours[..i];
      var contourArea := contours[i].area;
      if contourArea > largestArea {
        largestArea := contourArea;
        largest := Some(i);
      }
    }
    assert contours[..|contours|] == contours;
  }

  /** An index with the characterising properties is the one the scan keeps. */
  lemma LargestContourUnique(cs: seq<Contour>, k: nat)
    requires k < |cs| && cs[k].area > 0.0
    requires forall j :: 0 <= j < |cs| ==> cs[j].area <= cs[k].area
    requires forall j :: 0 <= j < k ==> cs[j].area < cs[k].area
    ensures LargestContour(cs) == Some(k)
  {
  }

  /** Of the areas [3, 7, 7, 2] the first 7 is kept, never the second. */
  lemma FirstOfTiedContoursWins(xs: seq<real>)
    requires |xs| == 4
    ensures LargestContour([Contour(3.0, xs[0]), Contour(7.0, xs[1]), Contour(7.0, xs[2]), Contour(2.0, xs[3])]) == Some(1)
  {
    var cs := [Contour(3.0, xs[0]), Contour(7.0, xs[1]), Contour(7.0, xs[2]), Contour(2.0, xs[3])];
    LargestContourUnique(cs, 1);
  }

  // ---------------------------------------------------------------------
  // Steering
  // ---------------------------------------------------------------------

  /** The steering angle for a target centred at column `centerX` of a frame
      `width` columns wide: 360 at the left edge down to 0 at the right edge. */
  function SteeringAngle(centerX: real, width: int): (angle: real)
    requires width > 0
    ensures 0.0 <= centerX <= width as real ==> 0.0 <= angle <= 360.0
  {
    360.0 * (1.0 - centerX / width as real)
  }

  /** The mapping is mirrored and full-circle: the left edge gives 360, the
      middle 180 and the right edge 0. */
  lemma SteeringEndpoints(width: int)
    requires width > 0
    ensures SteeringAngle(0.0, width) == 360.0
    ensures SteeringAngle(width as real / 2.0, width) == 180.0
    ensures SteeringAngle(width as real, width) == 0.0
  {
    var w := width as real;
    assert w / w == 1.0;
    assert (w / 2.0) / w == 0.5;
  }

  /** The angle strictly decreases as the target moves right. */
  lemma SteeringDecreasing(x1: real, x2: real, width: int)
    requires width > 0 && x1 < x2
    ensures SteeringAngle(x1, width) > SteeringAngle(x2, width)
  {
    var w := width as real;
    assert (x1 / w) * w == x1 && (x2 / w) * w == x2;
    assert x1 / w < x2 / w;
  }

  /** The command for one frame while following: stop when no contour has a
      positive area, otherwise drive at speed 150 towards the kept contour's
      enclosing-circle centre, rescaled to full resolution. */
  function FollowDecision(contours: seq<Contour>, width: int): (cmd: Command)
    requires width > 0
    ensures cmd.Stop? <==> forall j :: 0 <= j < |contours| ==> contours[j].area <= 0.0
    ensures cmd.Drive? ==>
              LargestContour(contours).Some? && cmd.speed == DriveSpeed &&
              cmd.angle == SteeringAngle(ReductionFactor * contours[LargestContour(contours).value].centerX, width)
  {
    var largest := LargestContour(contours);
    if MaxArea(contours) != 0.0 then
      Drive(DriveSpeed, SteeringAngle(ReductionFactor * contours[largest.value].centerX, width))
    else
      Stop
  }

  /** With no contours at all the robot is told to stop. */
  lemma NoContoursStops(width: int)
    requires width > 0
    ensures FollowDecision([], width) == Stop
  {
  }

  /** On a 640-column frame a target at the left edge, the middle and the
      right edge steers at 360, 180 and 0 degrees. */
  lemma SteeringExample()
    ensures SteeringAngle(0.0, 640) == 360.0
    ensures SteeringAngle(320.0, 640) == 180.0
    ensures SteeringAngle(640.0, 640) == 0.0
  {
  }
}
