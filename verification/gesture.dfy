/** The decision part of `runHandDetection` in src/App.jsx: from the palm seen
    on the previous tick and the hand seen now, which calls to make on the
    camera controller. Landmark detection itself is an input: each tick either
    fails or yields the list of detected hands. */
module Gesture {
  import opened Camera

  datatype Point = Point(x: real, y: real)

  /** The landmarks used: palm base (0), thumb tip (4), index fingertip (8). */
  datatype Hand = Hand(palmBase: Point, thumbTip: Point, indexTip: Point)

  /** What one detection call gives: an error, or the detected hands. */
  datatype Detection = DetectionFailed | Predictions(hands: seq<Hand>)

  /** The guards checked on a tick: model loaded, video element present,
      camera enabled, and the controller present. */
  datatype Readiness = Readiness(modelLoaded: bool, videoPresent: bool, cameraEnabled: bool,
                                 controlsPresent: bool)

  /** The palm position remembered between ticks, and the "hand detected"
      flag shown in the UI. */
  datatype Tracker = Tracker(lastPalm: Point, handDetected: bool)

  datatype TickInput = TickInput(env: Readiness, detection: Detection)

  /** The tracker state and the controller calls made, in order. */
  datatype Outcome = Outcome(tracker: Tracker, calls: seq<ControlCall>)

  /** The remembered palm starts at (0, 0). */
  const InitialTracker: Tracker := Tracker(Point(0.0, 0.0), false)

  /** Palm movements of at most this many pixels are ignored. */
  const DeadZone: real := 1.0
  /** Radians of rotation per pixel of palm movement. */
  const RotateScale: real := 0.002
  /** Pinch distances below this zoom in, above the other zoom out. */
  const PinchIn: real := 40.0
  const PinchOut: real := 100.0
  const DollyScale: real := 1.02

  function Abs(r: real): real {
    if r < 0.0 then -r else r
  }

  /** Squared distance between thumb tip and index fingertip. */
  function PinchSquared(h: Hand): real {
    var dx := h.thumbTip.x - h.indexTip.x;
    var dy := h.thumbTip.y - h.indexTip.y;
    dx * dx + dy * dy
  }

  /** The source compares the square-rooted distance with 40 and 100; for a
      non-negative distance that is the same as comparing its square with
      40^2 and 100^2. */
  lemma PinchThresholds(h: Hand, d: real)
    requires d >= 0.0 && d * d == PinchSquared(h)
    ensures d < PinchIn <==> PinchSquared(h) < PinchIn * PinchIn
    ensures d > PinchOut <==> PinchSquared(h) > PinchOut * PinchOut
  {
    if d < PinchIn {
      SquareStrict(d, PinchIn);
    } else {
      SquareMonotone(PinchIn, d);
    }
    if d > PinchOut {
      SquareStrict(PinchOut, d);
    } else {
      SquareMonotone(d, PinchOut);
    }
  }

  lemma SquareStrict(a: real, b: real)
    requires 0.0 <= a < b
    ensures a * a < b * b
  {
    MulPositive(b - a, b + a);
    assert (b - a) * (b + a) == b * b - a * a;
  }

  lemma MulPositive(x: real, y: real)
    requires x > 0.0 && y > 0.0
    ensures x * y > 0.0
  {
  }

  lemma SquareMonotone(a: real, b: real)
    requires 0.0 <= a <= b
    ensures a * a <= b * b
  {
    assert a * a <= a * b;
  }

  predicate RotatesLeft(calls: seq<ControlCall>) { exists c :: c in calls && c.RotateLeft? }
  predicate RotatesUp(calls: seq<ControlCall>) { exists c :: c in calls && c.RotateUp? }
  predicate DolliesIn(calls: seq<ControlCall>) { exists c :: c in calls && c.DollyIn? }
  predicate DolliesOut(calls: seq<ControlCall>) { exists c :: c in calls && c.DollyOut? }

  /** The calls made for a detected hand, given the previously remembered palm:
      rotate by the palm's movement outside the dead zone, zoom in on a tight
      pinch and out on a wide one, then let the controller update. */
  function Steer(last: Point, hand: Hand): (calls: seq<ControlCall>)
    ensures var dx := hand.palmBase.x - last.x;
            && (RotatesLeft(calls) <==> Abs(dx) > DeadZone)
            && (forall c :: c in calls && c.RotateLeft? ==> c.angle == dx * RotateScale)
    ensures var dy := hand.palmBase.y - last.y;
            && (RotatesUp(calls) <==> Abs(dy) > DeadZone)
            && (forall c :: c in calls && c.RotateUp? ==> c.angle == dy * RotateScale)
    ensures DolliesIn(calls) <==> PinchSquared(hand) < PinchIn * PinchIn
    ensures DolliesOut(calls) <==> PinchSquared(hand) > PinchOut * PinchOut
    ensures !(DolliesIn(calls) && DolliesOut(calls))
    ensures forall c :: c in calls && (c.DollyIn? || c.DollyOut?) ==> c.scale == DollyScale
    ensures var dx, dy, pinch := hand.palmBase.x - last.x, hand.palmBase.y - last.y, PinchSquared(hand);
            |calls| == (if Abs(dx) > DeadZone then 1 else 0) + (if Abs(dy) > DeadZone then 1 else 0)
                       + (if pinch < PinchIn * PinchIn || pinch > PinchOut * PinchOut then 1 else 0) + 1
    ensures |calls| >= 1 && calls[|calls| - 1] == Update
    ensures forall k :: 0 <= k < |calls| - 1 ==> !calls[k].Update?
  {
    var dx := hand.palmBase.x - last.x;
    var dy := hand.palmBase.y - last.y;
    var pinch := PinchSquared(hand);
    var left := if Abs(dx) > DeadZone then [RotateLeft(dx * RotateScale)] else [];
    var up := if Abs(dy) > DeadZone then [RotateUp(dy * RotateScale)] else [];
    var zoom := if pinch < PinchIn * PinchIn then [DollyIn(DollyScale)]
                else if pinch > PinchOut * PinchOut then [DollyOut(DollyScale)]
                else [];
    var calls := left + up + zoom + [Update];
    assert forall c :: c in calls ==> c in left || c in up || c in zoom || c == Update;
    assert RotatesLeft(calls) ==> |left| == 1;
    assert RotatesUp(calls) ==> |up| == 1;
    assert DolliesIn(calls) ==> |zoom| == 1 && zoom[0].DollyIn?;
    assert DolliesOut(calls) ==> |zoom| == 1 && zoom[0].DollyOut?;
    assert |left| == 1 ==> calls[0] in calls;
    assert |up| == 1 ==> calls[|left|] in calls;
    assert |zoom| == 1 ==> calls[|left| + |up|] in calls;
    calls
  }

  /** The tick reaches the steering code: all guards hold, detection succeeded,
      and at least one hand was found. */
  predicate Engaged(input: TickInput) {
    && input.env.modelLoaded && input.env.videoPresent && input.env.cameraEnabled
    && input.detection.Predictions? && |input.detection.hands| > 0
    && input.env.controlsPresent
  }

  /** One tick of the 50 ms detection loop. Deltas are taken against the
      remembered palm, which is then replaced by the current palm whatever the
      thresholds decide; a tick that does not reach the steering code changes
      no palm and makes no call. */
  function Tick(t: Tracker, input: TickInput): (r: Outcome)
    ensures Engaged(input) ==>
              var hand := input.detection.hands[0];
              r.tracker.lastPalm == hand.palmBase && r.calls == Steer(t.lastPalm, hand)
    ensures !Engaged(input) ==> r.tracker.lastPalm == t.lastPalm && r.calls == []
    ensures !(input.env.modelLoaded && input.env.videoPresent && input.env.cameraEnabled) ==> r.tracker == t
    ensures input.detection.DetectionFailed? ==> r.tracker == t
    ensures input.env.modelLoaded && input.env.videoPresent && input.env.cameraEnabled
            && input.detection.Predictions? ==>
              r.tracker.handDetected == (|input.detection.hands| > 0)
  {
    var env := input.env;
    if !(env.modelLoaded && env.videoPresent && env.cameraEnabled) then Outcome(t, [])
    else
      match input.detection
      case DetectionFailed => Outcome(t, [])
      case Predictions(hands) =>
        var seen := t.(handDetected := |hands| > 0);
        if |hands| > 0 && env.controlsPresent then
          var hand := hands[0];
          Outcome(seen.(lastPalm := hand.palmBase), Steer(t.lastPalm, hand))
        else Outcome(seen, [])
  }

  /** A sequence of ticks, in order, collecting every controller call. */
  function Run(t: Tracker, inputs: seq<TickInput>): Outcome
  {
    if |inputs| == 0 then Outcome(t, [])
    else
      var before := Run(t, inputs[..|inputs| - 1]);
      var last := Tick(before.tracker, inputs[|inputs| - 1]);
      Outcome(last.tracker, before.calls + last.calls)
  }

  /** The palm of the latest engaged tick, or `start` if there was none. */
  function LatestPalm(start: Point, inputs: seq<TickInput>): Point
  {
    if |inputs| == 0 then start
    else if Engaged(inputs[|inputs| - 1]) then inputs[|inputs| - 1].detection.hands[0].palmBase
    else LatestPalm(start, inputs[..|inputs| - 1])
  }

  /** After any run the remembered palm is the palm of the latest tick that
      reached the steering code: ticks without a hand, with a failed
      detection, or stopped by a guard leave it alone. */
  lemma {:induction false} RunRemembersLatestPalm(t: Tracker, inputs: seq<TickInput>)
    ensures Run(t, inputs).tracker.lastPalm == LatestPalm(t.lastPalm, inputs)
  {
    if |inputs| > 0 {
      RunRemembersLatestPalm(t, inputs[..|inputs| - 1]);
    }
  }

  /** Over any run, every rotation issued is larger than the dead zone allows
      to pass through, and every zoom step uses the fixed factor. */
  lemma {:induction false} RunCallsRespectThresholds(t: Tracker, inputs: seq<TickInput>)
    ensures forall c :: c in Run(t, inputs).calls ==>
              && (c.RotateLeft? ==> Abs(c.angle) > DeadZone * RotateScale)
              && (c.RotateUp? ==> Abs(c.angle) > DeadZone * RotateScale)
              && (c.DollyIn? || c.DollyOut? ==> c.scale == DollyScale)
  {
    if |inputs| > 0 {
      var before := Run(t, inputs[..|inputs| - 1]);
      RunCallsRespectThresholds(t, inputs[..|inputs| - 1]);
      var input := inputs[|inputs| - 1];
      var last := Tick(before.tracker, input);
      if Engaged(input) {
        var hand := input.detection.hands[0];
        var dx := hand.palmBase.x - before.tracker.lastPalm.x;
        var dy := hand.palmBase.y - before.tracker.lastPalm.y;
        assert Abs(dx) > DeadZone ==> Abs(dx * RotateScale) > DeadZone * RotateScale;
        assert Abs(dy) > DeadZone ==> Abs(dy * RotateScale) > DeadZone * RotateScale;
      }
      assert Run(t, inputs).calls == before.calls + last.calls;
    }
  }

  /** The worked example: the palm moves from (100, 100) to (105, 100) with a
      pinch of 70: one rotation left by 0.01 rad, no rotation up, no zoom. */
  lemma PalmMovesRightExample()
    ensures Steer(Point(100.0, 100.0), Hand(Point(105.0, 100.0), Point(0.0, 0.0), Point(70.0, 0.0)))
            == [RotateLeft(0.01), Update]
  {
  }

  /** The remembered palm starts at (0, 0), so the first tick that sees a hand
      measures its movement from the image corner: a palm first seen at
      (320, 240) turns the camera by 0.64 rad left and 0.48 rad up at once. */
  lemma FirstSightingMeasuredFromOrigin(hand: Hand)
    requires hand.palmBase == Point(320.0, 240.0) && PinchSquared(hand) == 4900.0
    ensures Tick(InitialTracker, TickInput(Readiness(true, true, true, true), Predictions([hand]))).calls
            == [RotateLeft(0.64), RotateUp(0.48), Update]
  {
  }
}
