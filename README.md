# Pose association and pose-aware detection merge, in Dafny

This project models the pose preprocessing of a human–object interaction
detector (ViPLO, on HICO-DET) and proves properties of the model.

**Ground-truth joint assignment** (`hicodet_gt_pose.py`, module `GtPose`).
Every ground-truth human box of an image is given the 17 joints of a pose
estimate. The candidates are the estimates overlapping the box with IoU
strictly above 0.5. When there is none, or the image has no estimates, the
box gets a fixed default pose with zero joint scores, and a single candidate
is attached as it is. With several candidates the script mistakes a position
in the candidate list for an index into the whole pose list (see
"## Findings"). The model records that choice as written and, for the
per-image loop, uses the corrected one: the candidate with the greatest IoU,
the first in input order winning a tie.

**Pose-aware merge** (`hicodet_pose.py`, modules `PoseMerge` and `Nms`).
The detector's human rows and one human row per pose estimate go through
non-maximum suppression (NMS) at IoU 0.5. Pose rows rank with their score
plus one, so a pose box beats a coincident plain detection. Each surviving
human row carries either its pose's joints or the default pose. The object
rows follow, unchanged and in input order. An image without any detection
is rejected.

**Loader helpers** (`utils.py`, module `Loader`):
- the score-threshold filter on detector output;
- the horizontal flip of joint x-coordinates;
- the regrouping of flat 34-number joint rows into 17 (x, y) pairs.

Shared pieces:
- `Seqs` models boolean-mask selection (`torch.nonzero`), fancy indexing and `torch.argmax`.
- `Geometry` holds boxes and `box_iou` over exact reals.
- `PoseData` holds the per-image records.

Inputs the scripts read from files are parameters of the model. These are
the pose-estimator list, the detector record, the annotation's `boxes_h`
and the default pose `BASIC_POSE_JOINT`.

Two points of the code worth stating plainly:
- The merged record's `human_joints` and `human_joints_score` have one row per surviving human box (`hicodet_pose.py:83-84`). They have no row for object rows, so their length differs from `boxes` whenever there are objects.
- `filter_detections` selects in two stages: first by label, then by score within that selection. The model keeps both stages and proves them equal to one selection by the conjunction.

## Model

| member | source | states |
|---|---|---|
| Seqs.Where | hicodet_gt_pose.py:48 | the mask selection is strictly increasing, lists only indices below n that satisfy the mask, and lists every such index |
| Seqs.Refine | utils.py:117-118 | selecting inside a selection keeps only listed indices that satisfy the second mask, keeps all of them, and preserves increasing order |
| Seqs.RefineWhere | utils.py:117-118 | a label selection refined by a score mask equals the selection by both conditions at once |
| Seqs.ArgMax | hicodet_gt_pose.py:56 | argmax returns a position holding the maximum, and every earlier position holds a strictly smaller value (first maximum) |
| Geometry.IouExceedsIff | hicodet_gt_pose.py:47-48 | with a positive union, the division-free threshold test agrees with IoU > t |
| Geometry.SelfIou | hicodet_pose.py:76 | a non-degenerate box has IoU 1 with itself and exceeds every threshold below 1 |
| GtPose.Candidates | hicodet_gt_pose.py:48 | the candidate indices are strictly increasing and lie inside the pose list |
| GtPose.CandidatesExact | hicodet_gt_pose.py:47-48 | the candidates are exactly the poses whose IoU with the box is above 0.5 |
| GtPose.AssignJoints | hicodet_gt_pose.py:42-59 | the script's per-box choice always attaches the default pose or some pose of the list, its index never leaving the list; NoPosesIsDefault, NoCandidateIsDefault, UniqueCandidateIsChosen and SeveralCandidatesUseLocalPosition pin down each branch |
| GtPose.AssignJointsBest | hicodet_gt_pose.py:42-59 | the corrected choice gives the default pose when no pose has IoU above 0.5, and otherwise a matching pose; BestPicksMaximalIou adds that its IoU is maximal and no earlier match reaches it |
| GtPose.NoPosesIsDefault | hicodet_gt_pose.py:42-45 | an image without pose estimates gives the default joints and zero scores |
| GtPose.NoCandidateIsDefault | hicodet_gt_pose.py:52-54 | when no pose has IoU above 0.5, both the as-written and the corrected choice give the default pose |
| GtPose.UniqueCandidateIsChosen | hicodet_gt_pose.py:49-51 | a single candidate's joints and scores are attached, by both choices |
| GtPose.SeveralCandidatesUseLocalPosition | hicodet_gt_pose.py:55-59 | with two or more candidates the script attaches pose m, where m is the candidate-list position of the first maximal IoU |
| GtPose.BestPicksMaximalIou | hicodet_gt_pose.py:55-59 | when some pose matches, the corrected choice attaches a matching pose whose IoU is maximal among all matches, with no earlier match reaching it |
| GtPose.PrefixCandidatesAgree | hicodet_gt_pose.py:55-59 | when the candidates are exactly the first k poses, the script's choice equals the corrected one |
| GtPose.AsWrittenMissesBest | hicodet_gt_pose.py:56 | for the box [0,0,10,10] and poses {far, IoU 0.8, IoU 1}, the script attaches the IoU-0.8 pose while the corrected choice attaches the IoU-1 pose |
| GtPose.AsWrittenAttachesNonCandidate | hicodet_gt_pose.py:55-59 | when the candidates are poses 0 and 2 and pose 2 has the greater IoU, the script attaches pose 1, which does not overlap the box above 0.5 |
| GtPose.AsWrittenAttachesFarPose | hicodet_gt_pose.py:55-59 | for the box [0,0,10,10] and poses {IoU 0.8, far, IoU 1}, the script attaches the far pose, which is not a candidate |
| GtPose.AssignAll | hicodet_gt_pose.py:35-59 | one joints row and one score row per human box, row i being the corrected choice for box i |
| GtPose.Annotation.AttachPoses | hicodet_gt_pose.py:61-69 | the annotation gains one joints row and one score row per human box, with boxes_h unchanged |
| Nms.GreedyNms | hicodet_pose.py:76 | the kept list satisfies IsGreedyNms: ranked by priority with ties by index, no kept box suppressed by an earlier kept one, and every dropped box suppressed by an earlier kept one |
| Nms.IsSuppressed | hicodet_pose.py:76 | the scan reports true exactly when some kept box has IoU above 0.5 with the row |
| Nms.GreedyNmsUnique | hicodet_pose.py:76 | any two kept lists that satisfy IsGreedyNms for the same boxes and priorities are equal, so the NMS outcome is determined |
| Nms.KeptNotSuppressed | hicodet_pose.py:76 | of two kept rows, the one ranked first never suppresses the other |
| PoseMerge.HumanRows | hicodet_pose.py:43-45 | the human rows, increasing, are exactly the rows labelled 49 |
| PoseMerge.ObjectRows | hicodet_pose.py:39-41 | the object rows, increasing, are exactly the rows not labelled 49 |
| PoseMerge.RowsPartition | hicodet_pose.py:39-45 | the human rows and the object rows together account for every detector row |
| PoseMerge.Priority | hicodet_pose.py:73 | the ranking score equals the reported score on detector rows and that score plus 1 on pose rows |
| PoseMerge.PosePopulation | hicodet_pose.py:48-63 | one human row per pose estimate, in order, carrying its box, label 49, score, joints and joint scores |
| PoseMerge.NmsInputs | hicodet_pose.py:65-75 | both branches of the empty-pose test produce the same NMS boxes, priorities and reported scores as the concatenated definition |
| PoseMerge.FillJoints | hicodet_pose.py:83-96 | a kept index below lenGt gets the default joints and zero scores, and a kept index k ≥ lenGt gets pose k − lenGt's joints and scores |
| PoseMerge.MergeImage | hicodet_pose.py:33-103 | no detections is rejected; otherwise keep is the greedy NMS of the merged population, each leading output row t is NMS row keep[t] with its raw score and attached joints, and the object rows follow unchanged |
| PoseMerge.NoPosesAllDefault | hicodet_pose.py:65-69 | with no pose estimates NMS runs on the detector's human rows with their own scores, and every surviving row gets the default pose |
| PoseMerge.CoincidentPoseTakesSlot | hicodet_pose.py:72-76 | with detector scores at most 1 and a positive pose score, a detector box identical to a pose box does not survive, and a kept pose row suppresses it |
| PoseMerge.KeptSuppressor | hicodet_pose.py:76 | a kept row ranked first that suppresses a row keeps that row out of the kept list |
| Loader.HumanPassing | utils.py:117-118 | the selected human rows are increasing and are exactly the rows with the human label and score ≥ thH |
| Loader.ObjectPassing | utils.py:121-124 | the selected object rows are increasing and are exactly the rows with another label and score ≥ thO |
| Loader.FilterKeepIsSelection | utils.py:117-125 | keep_idx is the passing human rows in input order followed by the passing object rows in input order |
| Loader.FilterDetections | utils.py:109-131 | the filtered boxes, labels and scores stay parallel (which rows they hold is stated by the lemmas below) |
| Loader.FilterDetectionsRows | utils.py:122-129 | output row j is one whole input row; the human block comes first and the object block after it |
| Loader.FilterDetectionsSoundComplete | utils.py:117-125 | every kept row meets its class's threshold, and every row meeting its class's threshold is kept |
| Loader.FilterDetectionsIdempotent | utils.py:109-131 | filtering the filtered detections with the same thresholds returns them unchanged |
| Loader.MirroredTwice | utils.py:139 | mirroring twice about the same width restores the joints |
| Loader.FlipJoints | utils.py:138-139 | the joint array afterwards holds the mirror image of its previous contents, and an empty array is left alone |
| Loader.FlipPoseJoints | utils.py:136-145 | with poses enabled both the detection's and the target's joints are mirrored; otherwise neither changes |
| Loader.FlipTwice | utils.py:138-139 | two flips with the same width leave the joint array as it was |
| Loader.ReshapeJoints | utils.py:183-184 | an empty (non-2-D) joint list stays empty; a non-empty one fails exactly when its entry count is not a multiple of 34, and otherwise gives one row of 17 joints per 34 entries (none when the rows have no entries) |
| Loader.FlattenRows | utils.py:184 | in rows of 34 numbers, entry j of row k sits at flat position 34k + j |
| Loader.ReshapeRowsOf34 | utils.py:189-190 | non-empty rows of 34 numbers reshape to one row of 17 joints each, joint j = (x, y) = (row[2j], row[2j+1]) |

## Findings

| source | as written | input that shows it | evidently intended | confidence | as-written member | corrected member |
|---|---|---|---|---|---|---|
| hicodet_gt_pose.py:56 | with several candidates, `argmax` over the candidates' IoUs gives a position inside the candidate list, which then indexes the full pose list; the pose attached may have lower IoU than the best candidate, or may not be a candidate at all (candidates [0, 2] with pose 2 best attach pose 1, whose IoU is at most 0.5: `GtPose.AsWrittenAttachesNonCandidate`, and on a concrete input `GtPose.AsWrittenAttachesFarPose`) | box [0,0,10,10]; poses [100,100,110,110], [0,0,10,8] (IoU 0.8), [0,0,10,10] (IoU 1): the candidates are [1, 2], argmax is 1, and pose 1 (IoU 0.8) is attached instead of pose 2 | translate the position back (`need_idx[argmax]`) so the best-overlapping candidate is attached | high (proved on the model; not executed) | GtPose.AsWrittenMissesBest | GtPose.BestPicksMaximalIou |

The script's behaviour is `GtPose.AssignJoints`. The corrected choice is
`GtPose.AssignJointsBest`, and `GtPose.AssignAll` and
`GtPose.Annotation.AttachPoses` use it. The two agree when there is at most
one candidate (`GtPose.NoCandidateIsDefault` and
`GtPose.UniqueCandidateIsChosen`), and `GtPose.PrefixCandidatesAgree` shows
they agree whenever the candidates are the first k poses of the list, for
example when every pose matches.

## Left out

- File I/O is not modelled: JSON reading and writing, `os.listdir`, `os.makedirs` and the `tqdm` loops. Each script is modelled by its per-image body.
- `with_pose_json` in `hicodet_pose.py` is built but never written to disk. `PoseMerge.MergeImage` returns it.
- `BASIC_POSE_JOINT` is read from a file and enters as the parameter `basic`.
- Floating point is not modelled; all coordinates and scores are exact reals. A zero-union IoU (NaN in the library) never exceeds a threshold.
- Nms.GreedyNms: `torchvision`'s `batched_nms` is replaced by greedy NMS. Boxes are visited by descending priority, and equal priorities go in input order, whereas the library leaves that order unspecified. All rows carry label 49, so batching by class has no effect.
- PoseMerge.MergeImage: the widths of pose joint rows (34) and score rows (17) and of the default pose `basic` are not checked. numpy would raise on a mis-shaped pose file, and `hicodet_pose.py:89` broadcasts `basic` into a 34-wide row, which raises for any other length except 1 (a single value is copied into all 34 entries); the model copies rows as they are.
- GtPose.AssignAll: the default pose `basic` and the pose joint rows may have any length. `torch.stack` at `hicodet_gt_pose.py:62` raises when the attached rows differ in shape; the model does not cover that error.
- PoseMerge.CoincidentPoseTakesSlot: needs a positive pose score and detector scores at most 1. With pose score 0 and detector score 1 the priorities tie, and the detector row wins because it comes first.
- Loader.FlipPoseJoints: requires the detection's and the target's joint arrays to be different objects. They are distinct tensors in the loader; an aliased pair would be flipped twice.
- Loader.FlipJoints: the (N, 17, 2) tensor is a 2-D array of (x, y) joints, so the last axis is the `Joint` pair.
- Loader.ReshapeJoints: requires rectangular rows, because a ragged list cannot become a tensor. A 2-D tensor whose entry count is not a multiple of 34 is an error (`None`); one with no entries reshapes to no joint rows.
- Loader.ReshapeJoints: the `dim() == 3` case of `utils.py:183` and `utils.py:189` (joints already shaped (N, 17, 2), left unchanged) is not modelled; the model's input is always the flat 2-D form.
- GtPose.AssignAll: its rows are the corrected choice (`AssignJointsBest`), not what the script's loop appends at `hicodet_gt_pose.py:56-58`; the two can differ only for a box with two or more candidates that are not the first poses of the list, the case recorded under Findings.
- GtPose.Annotation.AttachPoses: stores the corrected choice for every box, not the as-written choice the script writes into `human_joints` at `hicodet_gt_pose.py:68-69`.
- PoseMerge and Loader members require parallel `boxes`, `labels` and `scores` (`Parallel`). In `hicodet_pose.py:39-45` mismatched lengths make the boolean-mask indexing raise. `filter_detections` indexes by positions (`utils.py:117-129`), so boxes or scores longer than the labels are cut to the selected rows without error, and shorter ones raise only when a selected index lies beyond them; the model covers neither case.
- `pocket.ops.horizontal_flip_boxes` is not modelled. It is an external library call that flips the detection and target boxes.
- The rest of utils.py is not modelled:
  - the `DataFactory` constructor;
  - dataset wrappers, colour jitter, `hflip` and the random flip draws;
  - the `boxes_h -= 1` edits;
  - `CustomisedDLE`, `test`, `sample` and `custom_collate` (training loop, GPU moves, distributed gathering, AP meters).
