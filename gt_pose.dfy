/** Ground-truth joint assignment (hicodet_gt_pose.py): every ground-truth
    human box of an image receives the joints of an overlapping pose
    estimate, or the default pose when none overlaps enough. */
module GtPose {
  import opened Seqs
  import opened Geometry
  import opened PoseData

  /** `IOU_THRESHOLD`. */
  const IouThreshold: real := 0.5

  /** A pose is a candidate for a box when their IoU is strictly above 0.5. */
  predicate Matches(h: Box, p: PoseEstimate) {
    IouExceeds(h, p.bbox, IouThreshold)
  }

  /** `need_idx = nonzero(iou_result > IOU_THRESHOLD)`: the candidate poses,
      in ascending input order. */
  function Candidates(h: Box, poses: seq<PoseEstimate>): (c: seq<nat>)
    ensures StrictlyIncreasing(c)
    ensures forall t :: 0 <= t < |c| ==> c[t] < |poses|
  {
    Where(|poses|, (i: nat) => i < |poses| && Matches(h, poses[i]))
  }

  /** The candidates are exactly the matching poses. */
  lemma CandidatesExact(h: Box, poses: seq<PoseEstimate>)
    ensures var c := Candidates(h, poses);
      (forall t :: 0 <= t < |c| ==> Matches(h, poses[c[t]])) &&
      (forall i :: 0 <= i < |poses| && Matches(h, poses[i]) ==> i in c)
  {
  }

  /** `iou_result[need_idx]`: the IoU of the box with each candidate. */
  function CandidateIous(h: Box, poses: seq<PoseEstimate>): (ious: seq<real>)
    ensures |ious| == |Candidates(h, poses)|
    ensures forall t :: 0 <= t < |ious| ==> ious[t] == Iou(h, poses[Candidates(h, poses)[t]].bbox)
  {
    var c := Candidates(h, poses);
    seq(|c|, t requires 0 <= t < |c| => Iou(h, poses[c[t]].bbox))
  }

  /** The joint choice for one box as the script makes it. With several
      candidates the position of the best one inside the candidate list is
      used directly as an index into the full pose list. */
  function AssignJoints(h: Box, poses: seq<PoseEstimate>, basic: seq<real>): (r: Assigned)
    ensures r == DefaultPose(basic) || exists k :: 0 <= k < |poses| && r == FromPose(poses[k])
  {
    if |poses| == 0 then DefaultPose(basic)
    else
      var need := Candidates(h, poses);
      if |need| == 1 then FromPose(poses[need[0]])
      else if |need| == 0 then DefaultPose(basic)
      else FromPose(poses[ArgMax(CandidateIous(h, poses))])
  }

  /** The corrected choice: the local position of the best candidate is
      translated back to its index in the pose list. */
  function AssignJointsBest(h: Box, poses: seq<PoseEstimate>, basic: seq<real>): (r: Assigned)
    ensures (forall i :: 0 <= i < |poses| ==> !Matches(h, poses[i])) ==> r == DefaultPose(basic)
    ensures (exists i :: 0 <= i < |poses| && Matches(h, poses[i])) ==>
      exists g :: 0 <= g < |poses| && Matches(h, poses[g]) && r == FromPose(poses[g])
  {
    var need := Candidates(h, poses);
    CandidatesExact(h, poses);
    if |need| == 0 then DefaultPose(basic)
    else FromPose(poses[need[ArgMax(CandidateIous(h, poses))]])
  }

  /** An image without pose estimates gives every box the default pose. */
  lemma NoPosesIsDefault(h: Box, poses: seq<PoseEstimate>, basic: seq<real>)
    requires |poses| == 0
    ensures AssignJoints(h, poses, basic) == DefaultPose(basic)
  {
  }

  /** When no pose has IoU above 0.5 with the box (IoU exactly 0.5 does not
      count) the result is the default pose. */
  lemma NoCandidateIsDefault(h: Box, poses: seq<PoseEstimate>, basic: seq<real>)
    requires forall i :: 0 <= i < |poses| ==> !Matches(h, poses[i])
    ensures AssignJoints(h, poses, basic) == DefaultPose(basic)
    ensures AssignJointsBest(h, poses, basic) == DefaultPose(basic)
  {
    WhereNone(|poses|, (i: nat) => i < |poses| && Matches(h, poses[i]));
  }

  /** A single candidate decides the result: the box gets exactly that pose's
      joints and joint scores. */
  lemma UniqueCandidateIsChosen(h: Box, poses: seq<PoseEstimate>, basic: seq<real>, i: nat)
    requires i < |poses| && Matches(h, poses[i])
    requires forall j :: 0 <= j < |poses| && j != i ==> !Matches(h, poses[j])
    ensures AssignJoints(h, poses, basic) == FromPose(poses[i])
    ensures AssignJointsBest(h, poses, basic) == FromPose(poses[i])
  {
    var c := Candidates(h, poses);
    assert i in c;
    assert forall t :: 0 <= t < |c| ==> c[t] == i;
    OnlyElement(c, i);
  }

  /** With several candidates the script's index `m` is the first maximum of
      the candidate IoUs; it lies below the candidate count, hence inside the
      pose list, and names the pose at position `m` of the whole list. */
  lemma SeveralCandidatesUseLocalPosition(h: Box, poses: seq<PoseEstimate>, basic: seq<real>)
    requires |Candidates(h, poses)| >= 2
    ensures var ious := CandidateIous(h, poses);
      exists m :: 0 <= m < |ious| <= |poses| &&
        (forall t :: 0 <= t < |ious| ==> ious[t] <= ious[m]) &&
        (forall t :: 0 <= t < m ==> ious[t] < ious[m]) &&
        AssignJoints(h, poses, basic) == FromPose(poses[m])
  {
    var ious := CandidateIous(h, poses);
    var m := ArgMax(ious);
    assert |Candidates(h, poses)| <= |poses|;
    assert AssignJoints(h, poses, basic) == FromPose(poses[m]);
  }

  /** The corrected choice takes a candidate of greatest IoU with the box,
      the first one in input order when several tie. */
  lemma BestPicksMaximalIou(h: Box, poses: seq<PoseEstimate>, basic: seq<real>)
    requires exists i :: 0 <= i < |poses| && Matches(h, poses[i])
    ensures exists g :: (0 <= g < |poses| && Matches(h, poses[g]) &&
      AssignJointsBest(h, poses, basic) == FromPose(poses[g]) &&
      (forall i :: 0 <= i < |poses| && Matches(h, poses[i]) ==> Iou(h, poses[i].bbox) <= Iou(h, poses[g].bbox)) &&
      (forall i :: 0 <= i < g && Matches(h, poses[i]) ==> Iou(h, poses[i].bbox) < Iou(h, poses[g].bbox)))
  {
    var c := Candidates(h, poses);
    var i0 :| 0 <= i0 < |poses| && Matches(h, poses[i0]);
    assert i0 in c;
    var ious := CandidateIous(h, poses);
    var score := (i: nat) => if i < |poses| then Iou(h, poses[i].bbox) else 0.0;
    ArgMaxOfSelection(c, ious, score);
    var g := c[ArgMax(ious)];
    assert AssignJointsBest(h, poses, basic) == FromPose(poses[g]);
    forall i | 0 <= i < |poses| && Matches(h, poses[i])
      ensures Iou(h, poses[i].bbox) <= Iou(h, poses[g].bbox)
      ensures i < g ==> Iou(h, poses[i].bbox) < Iou(h, poses[g].bbox)
    {
      assert i in c;
      assert score(i) == Iou(h, poses[i].bbox) && score(g) == Iou(h, poses[g].bbox);
    }
  }

  /** When the candidates are exactly the first k poses, local and global
      positions coincide and the script's choice is the corrected one. */
  lemma PrefixCandidatesAgree(h: Box, poses: seq<PoseEstimate>, basic: seq<real>, k: nat)
    requires k <= |poses|
    requires forall i :: 0 <= i < |poses| ==> (Matches(h, poses[i]) <==> i < k)
    ensures AssignJoints(h, poses, basic) == AssignJointsBest(h, poses, basic)
  {
    var c := Candidates(h, poses);
    WhereInterval(|poses|, (i: nat) => i < |poses| && Matches(h, poses[i]), 0, k);
    assert c == Range(0, k);
  }

  function ExampleBox(): Box { Box(0.0, 0.0, 10.0, 10.0) }

  function ExamplePoses(): seq<PoseEstimate> {
    [PoseEstimate(Box(100.0, 100.0, 110.0, 110.0), 0.9, [0.0], [0.0]),
     PoseEstimate(Box(0.0, 0.0, 10.0, 8.0), 0.9, [1.0], [1.0]),
     PoseEstimate(Box(0.0, 0.0, 10.0, 10.0), 0.9, [2.0], [1.0])]
  }

  // Concrete areas and overlaps of the example, one arithmetic fact each.
  lemma AreaOfExampleBox() ensures Area(Box(0.0, 0.0, 10.0, 10.0)) == 100.0 {}
  lemma AreaOfFarBox() ensures Area(Box(100.0, 100.0, 110.0, 110.0)) == 100.0 {}
  lemma AreaOfNearBox() ensures Area(Box(0.0, 0.0, 10.0, 8.0)) == 80.0 {}
  lemma InterOfFarBox() ensures Inter(Box(0.0, 0.0, 10.0, 10.0), Box(100.0, 100.0, 110.0, 110.0)) == 0.0 {}
  lemma InterOfNearBox() ensures Inter(Box(0.0, 0.0, 10.0, 10.0), Box(0.0, 0.0, 10.0, 8.0)) == 80.0 {}

  lemma ExampleFar()
    ensures !Matches(ExampleBox(), ExamplePoses()[0])
  {
    assert ExamplePoses()[0].bbox == Box(100.0, 100.0, 110.0, 110.0);
    FarIou();
  }

  lemma FarIou()
    ensures !IouExceeds(Box(0.0, 0.0, 10.0, 10.0), Box(100.0, 100.0, 110.0, 110.0), IouThreshold)
  {
    AreaOfExampleBox();
    AreaOfFarBox();
    InterOfFarBox();
  }

  lemma ExampleNear()
    ensures Matches(ExampleBox(), ExamplePoses()[1]) && Iou(ExampleBox(), ExamplePoses()[1].bbox) == 0.8
  {
    assert ExamplePoses()[1].bbox == Box(0.0, 0.0, 10.0, 8.0);
    NearIou();
  }

  lemma NearIou()
    ensures IouExceeds(Box(0.0, 0.0, 10.0, 10.0), Box(0.0, 0.0, 10.0, 8.0), IouThreshold)
    ensures Iou(Box(0.0, 0.0, 10.0, 10.0), Box(0.0, 0.0, 10.0, 8.0)) == 0.8
  {
    AreaOfExampleBox();
    AreaOfNearBox();
    InterOfNearBox();
  }

  lemma ExampleSame()
    ensures Matches(ExampleBox(), ExamplePoses()[2]) && Iou(ExampleBox(), ExamplePoses()[2].bbox) == 1.0
  {
    assert ExamplePoses()[2].bbox == ExampleBox();
    SelfIou(ExampleBox(), IouThreshold);
  }

  /** Three poses against the box [0, 0, 10, 10]: pose 0 lies elsewhere,
      pose 1 ([0, 0, 10, 8]) has IoU 0.8 and pose 2 ([0, 0, 10, 10]) has
      IoU 1. The candidates are [1, 2]; the best is at local position 1, so
      the script returns pose 1 while the best-overlapping pose is pose 2. */
  lemma AsWrittenMissesBest()
    ensures Iou(ExampleBox(), ExamplePoses()[1].bbox) < Iou(ExampleBox(), ExamplePoses()[2].bbox)
    ensures AssignJoints(ExampleBox(), ExamplePoses(), []) == FromPose(ExamplePoses()[1])
    ensures AssignJointsBest(ExampleBox(), ExamplePoses(), []) == FromPose(ExamplePoses()[2])
    ensures AssignJoints(ExampleBox(), ExamplePoses(), []) != AssignJointsBest(ExampleBox(), ExamplePoses(), [])
  {
    var h, poses := ExampleBox(), ExamplePoses();
    ExampleFar();
    ExampleNear();
    ExampleSame();
    WhereInterval(|poses|, (i: nat) => i < |poses| && Matches(h, poses[i]), 1, 3);
    var c := Candidates(h, poses);
    assert c == Range(1, 3) == [1, 2];
    var ious := CandidateIous(h, poses);
    assert ious == [0.8, 1.0];
    assert ArgMax(ious) == 1;
  }

  /** When the candidates are poses 0 and 2 and pose 2 overlaps more, the
      script's local position 1 names pose 1, which is not a candidate at
      all: its IoU with the box is at most 0.5, yet its joints are attached. */
  lemma AsWrittenAttachesNonCandidate(h: Box, poses: seq<PoseEstimate>, basic: seq<real>)
    requires Candidates(h, poses) == [0, 2]
    requires Iou(h, poses[0].bbox) < Iou(h, poses[2].bbox)
    ensures !Matches(h, poses[1])
    ensures AssignJoints(h, poses, basic) == FromPose(poses[1])
  {
    var c := Candidates(h, poses);
    CandidatesExact(h, poses);
    assert 1 !in c;
    var ious := CandidateIous(h, poses);
    assert ious[0] < ious[1];
    assert ArgMax(ious) == 1;
  }

  /** The example poses reordered: [0, 0, 10, 8] (IoU 0.8), the far box
      (IoU 0), then [0, 0, 10, 10] (IoU 1). */
  function GapPoses(): seq<PoseEstimate> {
    [ExamplePoses()[1], ExamplePoses()[0], ExamplePoses()[2]]
  }

  /** On the reordered poses the candidates are [0, 2], so the script
      attaches the far pose, whose IoU with the box is 0. */
  lemma AsWrittenAttachesFarPose()
    ensures !Matches(ExampleBox(), GapPoses()[1])
    ensures AssignJoints(ExampleBox(), GapPoses(), []) == FromPose(ExamplePoses()[0])
  {
    var h, poses := ExampleBox(), GapPoses();
    ExampleFar();
    ExampleNear();
    ExampleSame();
    var c := Candidates(h, poses);
    WhereMembers(|poses|, (i: nat) => i < |poses| && Matches(h, poses[i]));
    assert forall y :: y in c <==> y in [0, 2];
    IncreasingUnique(c, [0, 2]);
    AsWrittenAttachesNonCandidate(h, poses, []);
  }

  /** The joints and joint scores chosen for one human box. */
  method AssignOne(h: Box, poses: seq<PoseEstimate>, basic: seq<real>) returns (joints: seq<real>, scores: seq<real>)
    ensures joints == AssignJointsBest(h, poses, basic).joints && scores == AssignJointsBest(h, poses, basic).jointsScore
  {
    var a := AssignJointsBest(h, poses, basic);
    joints, scores := a.joints, a.jointsScore;
  }

  /** The loop over `boxes_h`: one joints row and one score row per box, in
      box order; an image without human boxes yields empty lists. Row i
      depends only on box i and the image's pose list, and is chosen with the
      corrected candidate index. */
  method AssignAll(boxesH: seq<Box>, poses: seq<PoseEstimate>, basic: seq<real>)
    returns (joints: seq<seq<real>>, scores: seq<seq<real>>)
    ensures |joints| == |boxesH| && |scores| == |boxesH|
    ensures forall i :: 0 <= i < |boxesH| ==>
      Assigned(joints[i], scores[i]) == AssignJointsBest(boxesH[i], poses, basic)
  {
    joints, scores := [], [];
    for i := 0 to |boxesH|
      invariant |joints| == i && |scores| == i
      invariant forall k :: 0 <= k < i ==>
        joints[k] == AssignJointsBest(boxesH[k], poses, basic).joints && scores[k] == AssignJointsBest(boxesH[k], poses, basic).jointsScore
    {
      var j, sc := AssignOne(boxesH[i], poses, basic);
      joints := joints + [j];
      scores := scores + [sc];
    }
  }

  /** One annotation record: its `boxes_h` and the joint fields the script
      adds to it in place. */
  class Annotation {
    var boxesH: seq<Box>
    var humanJoints: seq<seq<real>>
    var humanJointsScore: seq<seq<real>>

    constructor (boxesH: seq<Box>)
      ensures this.boxesH == boxesH && humanJoints == [] && humanJointsScore == []
    {
      this.boxesH := boxesH;
      humanJoints := [];
      humanJointsScore := [];
    }

    /** `anno['human_joints']` and `anno['human_joints_score']` are set from
        the per-box choices; `boxes_h` is left as it was. */
    method AttachPoses(poses: seq<PoseEstimate>, basic: seq<real>)
      modifies this
      ensures boxesH == old(boxesH)
      ensures |humanJoints| == |boxesH| == |humanJointsScore|
      ensures forall i :: 0 <= i < |boxesH| ==>
        Assigned(humanJoints[i], humanJointsScore[i]) == AssignJointsBest(boxesH[i], poses, basic)
    {
      var joints, scores := AssignAll(boxesH, poses, basic);
      humanJoints := joints;
      humanJointsScore := scores;
    }
  }
}
