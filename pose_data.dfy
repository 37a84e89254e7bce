/** The per-image records shared by both preprocessing scripts: pose
    estimates, the joint annotation a human box receives, and the default
    pose used when no estimate can be associated with a box. */
module PoseData {
  import opened Geometry

  /** Keypoints per person; a flat joint row holds 2 * NumJoints numbers. */
  const NumJoints: nat := 17
  const FlatJoints: nat := 34

  /** One element of a pose-estimator file: `bbox`, `score`, flat `joints`
      (x0, y0, x1, y1, ...) and one confidence per joint. */
  datatype PoseEstimate = PoseEstimate(bbox: Box, score: real, joints: seq<real>, jointsScore: seq<real>)

  /** The joints and per-joint scores attached to one human box. */
  datatype Assigned = Assigned(joints: seq<real>, jointsScore: seq<real>)

  function Zeros(n: nat): (z: seq<real>)
    ensures |z| == n && forall k :: 0 <= k < n ==> z[k] == 0.0
  {
    seq(n, _ => 0.0)
  }

  /** `BASIC_POSE_JOINT` (loaded once from the basic-pose file and passed in
      here as `basic`) with the all-zero `BASIC_POSE_JOINT_SCORE`. */
  function DefaultPose(basic: seq<real>): Assigned {
    Assigned(basic, Zeros(NumJoints))
  }

  function FromPose(p: PoseEstimate): Assigned {
    Assigned(p.joints, p.jointsScore)
  }

  /** A detector record: parallel `boxes`, `labels` and `scores`. */
  datatype Detections = Detections(boxes: seq<Box>, labels: seq<int>, scores: seq<real>)

  predicate Parallel(d: Detections) {
    |d.boxes| == |d.labels| == |d.scores|
  }
}
