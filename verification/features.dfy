/** Landmark feature extraction: turns one pose estimate into the two
    knee-height scalars that the jump detector thresholds.

    Coordinates are normalised image coordinates; `y` grows downward, so a
    knee that rises above the hips has a smaller `y` than the hip midpoint and
    a positive knee height. */
module Landmarks {
  import opened Wrappers

  /** One landmark of a pose, reduced to its vertical coordinate, the only
      field the detector reads. */
  datatype Landmark = Landmark(y: real)

  /** The landmark list of one detected person, indexed by landmark number.
      An index past the end, or a `None` entry, is a missing landmark. */
  type Pose = seq<Option<Landmark>>

  /** What the pose model returns for one video frame: possibly no landmark
      list at all, otherwise one pose per detected person. */
  datatype Detection = Detection(landmarks: Option<seq<Pose>>)

  /** Landmark numbers of the pose model's skeleton that the detector reads. */
  const LeftHip: nat := 23
  const RightHip: nat := 24
  const LeftKnee: nat := 25
  const RightKnee: nat := 26

  /** The two knee heights of one frame, measured from the hip midpoint. */
  datatype KneeHeights = KneeHeights(left: real, right: real) {
    /** The same heights with the legs exchanged */
    function Swapped(): (r: KneeHeights)
      ensures r.left == right && r.right == left
    {
      KneeHeights(right, left)
    }
  }

  /** Landmark `i` of `pose`, or None when the list is too short or the entry
      is absent (JavaScript's `landmarks[i]` being undefined). */
  function At(pose: Pose, i: nat): (r: Option<Landmark>)
    ensures r.Some? <==> i < |pose| && pose[i].Some?
    ensures r.Some? ==> r.value == pose[i].value
  {
    if i < |pose| then pose[i] else None
  }

  /** The vertical coordinate of landmark `i`, for a landmark that is present. */
  function Y(pose: Pose, i: nat): real
    requires At(pose, i).Some?
  {
    At(pose, i).value.y
  }

  /** All four landmarks the detector reads are present. */
  predicate HasLowerBody(pose: Pose) {
    && At(pose, LeftHip).Some?
    && At(pose, RightHip).Some?
    && At(pose, LeftKnee).Some?
    && At(pose, RightKnee).Some?
  }

  /** The vertical midpoint of the two hips. */
  function HipMidY(pose: Pose): real
    requires HasLowerBody(pose)
  {
    (Y(pose, LeftHip) + Y(pose, RightHip)) / 2.0
  }

  /** The knee heights of `pose`, or None when any of the four landmarks is
      missing. Each height is the hip midpoint's `y` minus that knee's `y`, so
      both legs are measured against the same averaged hip. */
  function Heights(pose: Pose): (r: Option<KneeHeights>)
    ensures r.Some? <==> HasLowerBody(pose)
    // a height is positive exactly when that knee lies above the hip midpoint
    ensures r.Some? ==> (r.value.left > 0.0 <==> Y(pose, LeftKnee) < HipMidY(pose))
    ensures r.Some? ==> (r.value.right > 0.0 <==> Y(pose, RightKnee) < HipMidY(pose))
    // the shared hip reference cancels out between the legs
    ensures r.Some? ==> r.value.left - r.value.right == Y(pose, RightKnee) - Y(pose, LeftKnee)
    // a knee above both hips is above their midpoint, whatever the hip tilt
    ensures r.Some? && Y(pose, LeftKnee) < Y(pose, LeftHip) && Y(pose, LeftKnee) < Y(pose, RightHip) ==>
              r.value.left > 0.0
    ensures r.Some? && Y(pose, RightKnee) < Y(pose, LeftHip) && Y(pose, RightKnee) < Y(pose, RightHip) ==>
              r.value.right > 0.0
    // each height is that knee's distance above the hip midpoint: moving the knee up by it reaches the midpoint
    ensures r.Some? ==> Y(pose, LeftKnee) + r.value.left == HipMidY(pose)
    ensures r.Some? ==> Y(pose, RightKnee) + r.value.right == HipMidY(pose)
  {
    if HasLowerBody(pose) then
      var hipY := HipMidY(pose);
      Some(KneeHeights(hipY - Y(pose, LeftKnee), hipY - Y(pose, RightKnee)))
    else
      None
  }

  /** The pose of the first detected person, or None when the model returned
      no landmark list or an empty one. */
  function FirstPose(d: Detection): (r: Option<Pose>)
    ensures r.Some? <==> d.landmarks.Some? && |d.landmarks.value| > 0
    ensures r.Some? ==> r.value == d.landmarks.value[0]
  {
    if d.landmarks.Some? && |d.landmarks.value| > 0 then Some(d.landmarks.value[0]) else None
  }

  /** The knee heights of a frame's detection, or None when the frame is
      skipped: no pose, or a pose missing one of the four landmarks. */
  function Features(d: Detection): (r: Option<KneeHeights>)
    ensures r.Some? <==> FirstPose(d).Some? && HasLowerBody(FirstPose(d).value)
    ensures r.Some? ==> r == Heights(FirstPose(d).value)
  {
    match FirstPose(d)
    case None => None
    case Some(pose) => Heights(pose)
  }

  /** The features of a frame depend only on whether it has a pose and on
      that first pose's landmarks 23 to 26: other people's poses and every
      other landmark are never read. */
  lemma FeaturesAreLocal(d1: Detection, d2: Detection)
    requires FirstPose(d1).Some? <==> FirstPose(d2).Some?
    requires FirstPose(d1).Some? && FirstPose(d2).Some? ==>
               forall i :: LeftHip <= i <= RightKnee ==> At(FirstPose(d1).value, i) == At(FirstPose(d2).value, i)
    ensures Features(d1) == Features(d2)
  {
  }

  /** The greater of two heights. */
  function Max(a: real, b: real): real {
    if a < b then b else a
  }

  /** The knee counts as raised when either height is strictly above the threshold. */
  predicate KneeRaised(h: KneeHeights, threshold: real)
    // equivalently: the higher of the two knees clears the threshold
    ensures KneeRaised(h, threshold) <==> Max(h.left, h.right) > threshold
  {
    h.left > threshold || h.right > threshold
  }

  /** Exchanging the legs' heights never changes whether a knee is raised. */
  lemma KneeRaisedSymmetric(h: KneeHeights, threshold: real)
    ensures KneeRaised(h.Swapped(), threshold) == KneeRaised(h, threshold)
  {
  }

  /** In image terms, a usable pose has its knee raised exactly when one knee
      lies strictly more than the threshold above the hip midpoint; a knee
      exactly the threshold above it does not count. */
  lemma KneeRaisedGeometry(pose: Pose, threshold: real)
    requires HasLowerBody(pose)
    ensures KneeRaised(Heights(pose).value, threshold) <==>
              Y(pose, LeftKnee) < HipMidY(pose) - threshold || Y(pose, RightKnee) < HipMidY(pose) - threshold
    ensures Y(pose, LeftKnee) == HipMidY(pose) - threshold && Y(pose, RightKnee) >= HipMidY(pose) - threshold ==>
              !KneeRaised(Heights(pose).value, threshold)
  {
  }

  /** `pose` with the left and right hips and knees exchanged: the same body
      seen with its legs labelled the other way round. */
  function Mirrored(pose: Pose): (r: Pose)
    requires |pose| > RightKnee
    ensures |r| == |pose|
    ensures r[LeftHip] == pose[RightHip] && r[RightHip] == pose[LeftHip]
    ensures r[LeftKnee] == pose[RightKnee] && r[RightKnee] == pose[LeftKnee]
    ensures forall i :: 0 <= i < |pose| && i !in {LeftHip, RightHip, LeftKnee, RightKnee} ==> r[i] == pose[i]
  {
    pose[LeftHip := pose[RightHip]][RightHip := pose[LeftHip]]
        [LeftKnee := pose[RightKnee]][RightKnee := pose[LeftKnee]]
  }

  /** Mirroring a pose skips exactly the frames it skipped before and
      otherwise exchanges the two knee heights. */
  lemma MirroredHeights(pose: Pose)
    requires |pose| > RightKnee
    ensures Heights(Mirrored(pose)).Some? <==> Heights(pose).Some?
    ensures Heights(pose).Some? ==> Heights(Mirrored(pose)).value == Heights(pose).value.Swapped()
  {
  }
}
