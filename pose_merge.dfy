/** Pose-aware detection merge (hicodet_pose.py): the detector's human rows
    and one human row per pose estimate are deduplicated by NMS, pose rows
    ranked with their score plus one; surviving rows carry the pose's joints
    or the default pose, and the object rows follow unchanged. */
module PoseMerge {
  import opened Seqs
  import opened Geometry
  import opened PoseData
  import opened Nms

  /** `HUMAN_IDX`, the person class of the detector's label space. */
  const HumanIdx: int := 49

  /** The merged record written for one image. The joint arrays have one row
      per surviving human box; object rows have none. */
  datatype Merged = Merged(boxes: seq<Box>, labels: seq<int>, scores: seq<real>,
                           humanJoints: seq<seq<real>>, humanJointsScore: seq<seq<real>>)

  datatype MergeOutcome = Ok(merged: Merged) | NoDetections

  /** `labels == HUMAN_IDX`: the detector's human rows, in input order. */
  function HumanRows(d: Detections): (idx: seq<nat>)
    requires Parallel(d)
    ensures StrictlyIncreasing(idx)
    ensures forall t :: 0 <= t < |idx| ==> idx[t] < |d.boxes| && d.labels[idx[t]] == HumanIdx
    ensures forall i :: 0 <= i < |d.boxes| && d.labels[i] == HumanIdx ==> i in idx
  {
    Where(|d.labels|, (i: nat) => i < |d.labels| && d.labels[i] == HumanIdx)
  }

  /** `labels != HUMAN_IDX`: the object rows, in input order. */
  function ObjectRows(d: Detections): (idx: seq<nat>)
    requires Parallel(d)
    ensures StrictlyIncreasing(idx)
    ensures forall t :: 0 <= t < |idx| ==> idx[t] < |d.boxes| && d.labels[idx[t]] != HumanIdx
    ensures forall i :: 0 <= i < |d.boxes| && d.labels[i] != HumanIdx ==> i in idx
  {
    Where(|d.labels|, (i: nat) => i < |d.labels| && d.labels[i] != HumanIdx)
  }

  /** Boxes handed to NMS: the detector's human rows, then one row per pose. */
  function NmsBoxes(d: Detections, poses: seq<PoseEstimate>): (b: seq<Box>)
    requires Parallel(d)
    ensures |b| == |HumanRows(d)| + |poses|
    ensures forall t :: 0 <= t < |HumanRows(d)| ==> b[t] == d.boxes[HumanRows(d)[t]]
    ensures forall k :: 0 <= k < |poses| ==> b[|HumanRows(d)| + k] == poses[k].bbox
  {
    Gather(d.boxes, HumanRows(d)) + seq(|poses|, k requires 0 <= k < |poses| => poses[k].bbox)
  }

  /** The unboosted scores of the NMS rows, reported in the output. */
  function RawScores(d: Detections, poses: seq<PoseEstimate>): (s: seq<real>)
    requires Parallel(d)
    ensures |s| == |HumanRows(d)| + |poses|
    ensures forall t :: 0 <= t < |HumanRows(d)| ==> s[t] == d.scores[HumanRows(d)[t]]
    ensures forall k :: 0 <= k < |poses| ==> s[|HumanRows(d)| + k] == poses[k].score
  {
    Gather(d.scores, HumanRows(d)) + seq(|poses|, k requires 0 <= k < |poses| => poses[k].score)
  }

  /** The ranking scores: plain rows as they are, pose rows raised by one. */
  function Priority(d: Detections, poses: seq<PoseEstimate>): (pri: seq<real>)
    requires Parallel(d)
    ensures |pri| == |RawScores(d, poses)|
    ensures forall k :: 0 <= k < |pri| ==>
      pri[k] == RawScores(d, poses)[k] + if k < |HumanRows(d)| then 0.0 else 1.0
  {
    Gather(d.scores, HumanRows(d)) + seq(|poses|, k requires 0 <= k < |poses| => poses[k].score + 1.0)
  }

  /** The joints a kept NMS row receives: the default pose for a detector
      row, the pose's own joints for a pose row. */
  function KeptJoints(d: Detections, poses: seq<PoseEstimate>, basic: seq<real>, k: nat): Assigned
    requires Parallel(d) && k < |HumanRows(d)| + |poses|
  {
    if k < |HumanRows(d)| then DefaultPose(basic) else FromPose(poses[k - |HumanRows(d)|])
  }

  /** The loop over the pose file: one human row per pose estimate. */
  method PosePopulation(poses: seq<PoseEstimate>)
    returns (boxes: seq<Box>, labels: seq<int>, scores: seq<real>,
             joints: seq<seq<real>>, jointsScore: seq<seq<real>>)
    ensures |boxes| == |labels| == |scores| == |joints| == |jointsScore| == |poses|
    ensures forall k :: 0 <= k < |poses| ==>
      boxes[k] == poses[k].bbox && labels[k] == HumanIdx && scores[k] == poses[k].score &&
      joints[k] == poses[k].joints && jointsScore[k] == poses[k].jointsScore
  {
    boxes, labels, scores, joints, jointsScore := [], [], [], [], [];
    for k := 0 to |poses|
      invariant |boxes| == |labels| == |scores| == |joints| == |jointsScore| == k
      invariant forall j :: 0 <= j < k ==>
        boxes[j] == poses[j].bbox && labels[j] == HumanIdx && scores[j] == poses[j].score &&
        joints[j] == poses[j].joints && jointsScore[j] == poses[j].jointsScore
    {
      boxes := boxes + [poses[k].bbox];
      labels := labels + [HumanIdx];
      scores := scores + [poses[k].score];
      joints := joints + [poses[k].joints];
      jointsScore := jointsScore + [poses[k].jointsScore];
    }
  }

  /** The NMS inputs: detector human rows followed by the pose rows; pose
      rows ranked one above their score; the raw scores kept for output. With
      an empty pose file the detector rows are used alone. */
  method NmsInputs(det: Detections, poses: seq<PoseEstimate>)
    returns (nmsBoxes: seq<Box>, nmsScores: seq<real>, activeScores: seq<real>, nmsLabels: seq<int>,
             poseJoints: seq<seq<real>>, poseJointsScore: seq<seq<real>>)
    requires Parallel(det)
    ensures nmsBoxes == NmsBoxes(det, poses)
    ensures nmsScores == Priority(det, poses)
    ensures activeScores == RawScores(det, poses)
    ensures |nmsLabels| == |nmsBoxes| && forall k :: 0 <= k < |nmsLabels| ==> nmsLabels[k] == HumanIdx
    ensures |poseJoints| == |poseJointsScore| == |poses|
    ensures forall k :: 0 <= k < |poses| ==> poseJoints[k] == poses[k].joints && poseJointsScore[k] == poses[k].jointsScore
  {
    var humIdx := HumanRows(det);
    var gtBoxes, gtLabels, gtScores := Gather(det.boxes, humIdx), Gather(det.labels, humIdx), Gather(det.scores, humIdx);
    var poseBoxes, poseLabels, poseScores;
    poseBoxes, poseLabels, poseScores, poseJoints, poseJointsScore := PosePopulation(poses);
    if |poseBoxes| == 0 {
      nmsBoxes, nmsScores, activeScores, nmsLabels := gtBoxes, gtScores, gtScores, gtLabels;
    } else {
      nmsBoxes := gtBoxes + poseBoxes;
      nmsScores := gtScores + seq(|poseScores|, k requires 0 <= k < |poseScores| => poseScores[k] + 1.0);
      activeScores := gtScores + poseScores;
      nmsLabels := gtLabels + poseLabels;
    }
  }

  /** The zero-initialised joint arrays of the surviving rows, filled with
      the default pose at detector rows (index below `lenGt`) and then with
      the pose's joints at pose rows. */
  method FillJoints(keep: seq<nat>, lenGt: nat, basic: seq<real>,
                    poseJoints: seq<seq<real>>, poseJointsScore: seq<seq<real>>)
    returns (joints: seq<seq<real>>, jointsScore: seq<seq<real>>)
    requires |poseJoints| == |poseJointsScore|
    requires forall t :: 0 <= t < |keep| ==> keep[t] < lenGt + |poseJoints|
    ensures |joints| == |jointsScore| == |keep|
    ensures forall t :: 0 <= t < |keep| ==>
      if keep[t] < lenGt then joints[t] == basic && jointsScore[t] == Zeros(NumJoints)
      else joints[t] == poseJoints[keep[t] - lenGt] && jointsScore[t] == poseJointsScore[keep[t] - lenGt]
  {
    var jointsArr := new seq<real>[|keep|](_ => Zeros(FlatJoints));
    var scoreArr := new seq<real>[|keep|](_ => Zeros(NumJoints));
    for t := 0 to |keep|
      invariant forall u :: 0 <= u < t && keep[u] < lenGt ==> jointsArr[u] == basic && scoreArr[u] == Zeros(NumJoints)
    {
      if keep[t] < lenGt {
        jointsArr[t] := basic;
        scoreArr[t] := Zeros(NumJoints);
      }
    }
    for t := 0 to |keep|
      invariant forall u :: 0 <= u < |keep| && keep[u] < lenGt ==> jointsArr[u] == basic && scoreArr[u] == Zeros(NumJoints)
      invariant forall u :: 0 <= u < t && keep[u] >= lenGt ==>
        jointsArr[u] == poseJoints[keep[u] - lenGt] && scoreArr[u] == poseJointsScore[keep[u] - lenGt]
    {
      if keep[t] >= lenGt {
        jointsArr[t] := poseJoints[keep[t] - lenGt];
        scoreArr[t] := poseJointsScore[keep[t] - lenGt];
      }
    }
    joints, jointsScore := jointsArr[..], scoreArr[..];
  }

  /** The per-image body. An image whose detector output has no box at all
      is rejected. Otherwise the output lists the surviving human rows (in
      NMS order, with their raw scores and attached joints) followed by the
      object rows exactly as the detector gave them. */
  method MergeImage(det: Detections, poses: seq<PoseEstimate>, basic: seq<real>)
    returns (r: MergeOutcome, keep: seq<nat>)
    requires Parallel(det)
    ensures r.NoDetections? <==> |det.boxes| == 0
    ensures r.Ok? ==> IsGreedyNms(NmsBoxes(det, poses), Priority(det, poses), keep)
    ensures r.Ok? ==>
      var m, n := r.merged, |keep|;
      |m.boxes| == |m.labels| == |m.scores| == n + |ObjectRows(det)| &&
      |m.humanJoints| == |m.humanJointsScore| == n &&
      (forall t :: 0 <= t < n && keep[t] < |NmsBoxes(det, poses)| ==>
        m.boxes[t] == NmsBoxes(det, poses)[keep[t]] && m.labels[t] == HumanIdx &&
        m.scores[t] == RawScores(det, poses)[keep[t]] &&
        Assigned(m.humanJoints[t], m.humanJointsScore[t]) == KeptJoints(det, poses, basic, keep[t])) &&
      m.boxes[n..] == Gather(det.boxes, ObjectRows(det)) &&
      m.labels[n..] == Gather(det.labels, ObjectRows(det)) &&
      m.scores[n..] == Gather(det.scores, ObjectRows(det))
  {
    if |det.boxes| == 0 {
      return NoDetections, [];
    }
    var objIdx := ObjectRows(det);
    var objectBoxes, objectLabels, objectScores := Gather(det.boxes, objIdx), Gather(det.labels, objIdx), Gather(det.scores, objIdx);
    var nmsBoxes, nmsScores, activeScores, nmsLabels, poseJoints, poseJointsScore := NmsInputs(det, poses);
    keep := GreedyNms(nmsBoxes, nmsScores);
    var activeBoxes, activeLabels, activeScoresKept := Gather(nmsBoxes, keep), Gather(nmsLabels, keep), Gather(activeScores, keep);
    var joints, jointsScore := FillJoints(keep, |HumanRows(det)|, basic, poseJoints, poseJointsScore);
    var m := Merged(activeBoxes + objectBoxes, activeLabels + objectLabels, activeScoresKept + objectScores, joints, jointsScore);
    forall t | 0 <= t < |keep|
      ensures m.boxes[t] == nmsBoxes[keep[t]] && m.labels[t] == HumanIdx && m.scores[t] == activeScores[keep[t]]
      ensures Assigned(m.humanJoints[t], m.humanJointsScore[t]) == KeptJoints(det, poses, basic, keep[t])
    {
    }
    assert m.boxes[|keep|..] == objectBoxes;
    assert m.labels[|keep|..] == objectLabels;
    assert m.scores[|keep|..] == objectScores;
    r := Ok(m);
  }

  /** Every detector row is either a human row or an object row. */
  lemma RowsPartition(d: Detections)
    requires Parallel(d)
    ensures |HumanRows(d)| + |ObjectRows(d)| == |d.boxes|
  {
    WhereComplement(|d.labels|, (i: nat) => i < |d.labels| && d.labels[i] == HumanIdx,
                                (i: nat) => i < |d.labels| && d.labels[i] != HumanIdx);
  }

  /** Without pose estimates NMS runs on the detector's human rows alone,
      ranked by their own scores, and every surviving row gets the default
      pose. */
  lemma NoPosesAllDefault(d: Detections, basic: seq<real>, keep: seq<nat>)
    requires Parallel(d)
    requires IsGreedyNms(NmsBoxes(d, []), Priority(d, []), keep)
    ensures NmsBoxes(d, []) == Gather(d.boxes, HumanRows(d))
    ensures Priority(d, []) == Gather(d.scores, HumanRows(d))
    ensures forall t :: 0 <= t < |keep| ==>
      keep[t] < |HumanRows(d)| && KeptJoints(d, [], basic, keep[t]) == DefaultPose(basic)
  {
  }

  /** A pose estimate whose box coincides with a detector human box takes
      that box's place: with detector scores at most 1 and a positive pose
      score, the detector row is suppressed, and by a kept pose row. */
  lemma CoincidentPoseTakesSlot(d: Detections, poses: seq<PoseEstimate>, keep: seq<nat>, g: nat, k: nat)
    requires Parallel(d)
    requires forall i :: 0 <= i < |d.scores| ==> d.scores[i] <= 1.0
    requires g < |HumanRows(d)| && k < |poses|
    requires poses[k].score > 0.0 && NonDegenerate(poses[k].bbox)
    requires d.boxes[HumanRows(d)[g]] == poses[k].bbox
    requires IsGreedyNms(NmsBoxes(d, poses), Priority(d, poses), keep)
    ensures g !in keep
    ensures exists t :: 0 <= t < |keep| && keep[t] >= |HumanRows(d)| && Suppresses(NmsBoxes(d, poses), keep[t], g)
  {
    var boxes, pri, lenGt := NmsBoxes(d, poses), Priority(d, poses), |HumanRows(d)|;
    var p := lenGt + k;
    SelfIou(poses[k].bbox, NmsThreshold);
    assert boxes[p] == boxes[g] == poses[k].bbox;
    assert pri[p] > 1.0 && pri[g] <= 1.0;
    assert Before(pri, p, g) && Suppresses(boxes, p, g);
    if p in keep {
      KeptSuppressor(boxes, pri, keep, p, g);
    } else {
      var t :| 0 <= t < |keep| && Before(pri, keep[t], p) && Suppresses(boxes, keep[t], p);
      assert keep[t] >= lenGt;
      assert Before(pri, keep[t], g) && Suppresses(boxes, keep[t], g);
      KeptSuppressor(boxes, pri, keep, keep[t], g);
    }
  }

  /** A kept row that comes first and suppresses row `g` keeps `g` out. */
  lemma KeptSuppressor(boxes: seq<Box>, pri: seq<real>, keep: seq<nat>, q: nat, g: nat)
    requires IsGreedyNms(boxes, pri, keep)
    requires q in keep && Before(pri, q, g) && Suppresses(boxes, q, g)
    ensures g !in keep
    ensures exists t :: 0 <= t < |keep| && keep[t] == q && Suppresses(boxes, keep[t], g)
  {
    if g in keep {
      KeptNotSuppressed(boxes, pri, keep, q, g);
    }
  }
}
