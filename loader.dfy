/** The data-loader helpers of utils.py that touch detections and joints:
    the score-threshold filter applied to detector output, the horizontal
    flip of joint coordinates, and the regrouping of flat joint rows into
    (x, y) pairs. */
module Loader {
  import opened Seqs
  import opened PoseData

  datatype Option<T> = None | Some(value: T)

  // ---------------------------------------------------------------------
  // filter_detections
  // ---------------------------------------------------------------------

  /** Rows of class `humanIdx` scoring at least `thH`. */
  predicate KeepsHuman(d: Detections, humanIdx: int, thH: real, i: nat)
    requires Parallel(d)
  {
    i < |d.labels| && d.labels[i] == humanIdx && d.scores[i] >= thH
  }

  /** Rows of any other class scoring at least `thO`. */
  predicate KeepsObject(d: Detections, humanIdx: int, thO: real, i: nat)
    requires Parallel(d)
  {
    i < |d.labels| && d.labels[i] != humanIdx && d.scores[i] >= thO
  }

  /** The passing human rows, in input order. */
  function HumanPassing(d: Detections, humanIdx: int, thH: real): (h: seq<nat>)
    requires Parallel(d)
    ensures StrictlyIncreasing(h)
    ensures forall t :: 0 <= t < |h| ==> KeepsHuman(d, humanIdx, thH, h[t])
    ensures forall i :: 0 <= i < |d.labels| && KeepsHuman(d, humanIdx, thH, i) ==> i in h
  {
    Where(|d.labels|, (i: nat) => KeepsHuman(d, humanIdx, thH, i))
  }

  /** The passing object rows, in input order. */
  function ObjectPassing(d: Detections, humanIdx: int, thO: real): (o: seq<nat>)
    requires Parallel(d)
    ensures StrictlyIncreasing(o)
    ensures forall t :: 0 <= t < |o| ==> KeepsObject(d, humanIdx, thO, o[t])
    ensures forall i :: 0 <= i < |d.labels| && KeepsObject(d, humanIdx, thO, i) ==> i in o
  {
    Where(|d.labels|, (i: nat) => KeepsObject(d, humanIdx, thO, i))
  }

  /** `keep_idx`: the human rows selected by label and then by score,
      followed by the object rows selected the same way. */
  function FilterKeep(d: Detections, humanIdx: int, thH: real, thO: real): (keep: seq<nat>)
    requires Parallel(d)
    ensures forall t :: 0 <= t < |keep| ==> keep[t] < |d.boxes|
  {
    var n := |d.labels|;
    var idxH := Where(n, (i: nat) => i < n && d.labels[i] == humanIdx);
    var idxO := Where(n, (i: nat) => i < n && d.labels[i] != humanIdx);
    Refine(idxH, (i: nat) => i < n && d.scores[i] >= thH) +
    Refine(idxO, (i: nat) => i < n && d.scores[i] >= thO)
  }

  /** The two-stage selection is the human rows that pass their threshold,
      in input order, followed by the object rows that pass theirs, in input
      order. */
  lemma FilterKeepIsSelection(d: Detections, humanIdx: int, thH: real, thO: real)
    requires Parallel(d)
    ensures FilterKeep(d, humanIdx, thH, thO) == HumanPassing(d, humanIdx, thH) + ObjectPassing(d, humanIdx, thO)
  {
    var n := |d.labels|;
    RefineWhere(n, (i: nat) => i < n && d.labels[i] == humanIdx, (i: nat) => i < n && d.scores[i] >= thH,
                (i: nat) => KeepsHuman(d, humanIdx, thH, i));
    RefineWhere(n, (i: nat) => i < n && d.labels[i] != humanIdx, (i: nat) => i < n && d.scores[i] >= thO,
                (i: nat) => KeepsObject(d, humanIdx, thO, i));
  }

  /** `filter_detections`: the detector rows that pass the threshold of
      their class, as parallel boxes, labels and scores. */
  function FilterDetections(d: Detections, humanIdx: int, thH: real, thO: real): (r: Detections)
    requires Parallel(d)
    ensures Parallel(r)
  {
    var keep := FilterKeep(d, humanIdx, thH, thO);
    Detections(Gather(d.boxes, keep), Gather(d.labels, keep), Gather(d.scores, keep))
  }

  /** The output lists the passing human rows in input order, then the
      passing object rows in input order; each output row is one input row
      carried over whole, and every passing row is there. */
  lemma FilterDetectionsRows(d: Detections, humanIdx: int, thH: real, thO: real)
    requires Parallel(d)
    ensures var r, h, o := FilterDetections(d, humanIdx, thH, thO), HumanPassing(d, humanIdx, thH), ObjectPassing(d, humanIdx, thO);
      |r.boxes| == |h| + |o| &&
      (forall t :: 0 <= t < |h| ==>
        r.boxes[t] == d.boxes[h[t]] && r.labels[t] == humanIdx && r.scores[t] == d.scores[h[t]] && r.scores[t] >= thH) &&
      (forall i :: |h| <= i < |r.boxes| ==>
        r.boxes[i] == d.boxes[o[i - |h|]] && r.labels[i] == d.labels[o[i - |h|]] != humanIdx &&
        r.scores[i] == d.scores[o[i - |h|]] && r.scores[i] >= thO)
  {
    FilterKeepIsSelection(d, humanIdx, thH, thO);
  }

  /** Every kept row meets the threshold of its class, and every row that
      meets the threshold of its class is kept. */
  lemma FilterDetectionsSoundComplete(d: Detections, humanIdx: int, thH: real, thO: real)
    requires Parallel(d)
    ensures var r := FilterDetections(d, humanIdx, thH, thO);
      forall j :: 0 <= j < |r.labels| ==>
        if r.labels[j] == humanIdx then r.scores[j] >= thH else r.scores[j] >= thO
    ensures var keep := FilterKeep(d, humanIdx, thH, thO);
      forall i :: (0 <= i < |d.labels| &&
                   if d.labels[i] == humanIdx then d.scores[i] >= thH else d.scores[i] >= thO) ==> i in keep
  {
    FilterKeepIsSelection(d, humanIdx, thH, thO);
    var n := |d.labels|;
    var h, o := HumanPassing(d, humanIdx, thH), ObjectPassing(d, humanIdx, thO);
    forall i | 0 <= i < n && (if d.labels[i] == humanIdx then d.scores[i] >= thH else d.scores[i] >= thO)
      ensures i in h + o
    {
      if d.labels[i] == humanIdx {
        assert KeepsHuman(d, humanIdx, thH, i);
      } else {
        assert KeepsObject(d, humanIdx, thO, i);
      }
    }
  }

  /** In detections made of a block of passing human rows followed by a
      block of passing object rows, the two selections are those blocks. */
  lemma PassingBlocks(r: Detections, humanIdx: int, thH: real, thO: real, split: nat)
    requires Parallel(r) && split <= |r.labels|
    requires forall i :: 0 <= i < split ==> r.labels[i] == humanIdx && r.scores[i] >= thH
    requires forall i :: split <= i < |r.labels| ==> r.labels[i] != humanIdx && r.scores[i] >= thO
    ensures HumanPassing(r, humanIdx, thH) == Range(0, split)
    ensures ObjectPassing(r, humanIdx, thO) == Range(split, |r.labels|)
  {
    WhereInterval(|r.labels|, (i: nat) => KeepsHuman(r, humanIdx, thH, i), 0, split);
    WhereInterval(|r.labels|, (i: nat) => KeepsObject(r, humanIdx, thO, i), split, |r.labels|);
  }

  /** Filtering the filtered detections with the same thresholds changes
      nothing. */
  lemma FilterDetectionsIdempotent(d: Detections, humanIdx: int, thH: real, thO: real)
    requires Parallel(d)
    ensures var r := FilterDetections(d, humanIdx, thH, thO);
      FilterDetections(r, humanIdx, thH, thO) == r
  {
    var r := FilterDetections(d, humanIdx, thH, thO);
    var h := HumanPassing(d, humanIdx, thH);
    var m := |r.labels|;
    FilterDetectionsRows(d, humanIdx, thH, thO);
    PassingBlocks(r, humanIdx, thH, thO, |h|);
    FilterKeepIsSelection(r, humanIdx, thH, thO);
    RangeConcat(0, |h|, m);
    assert FilterKeep(r, humanIdx, thH, thO) == Range(0, m);
    GatherAll(r.boxes);
    GatherAll(r.labels);
    GatherAll(r.scores);
  }

  // ---------------------------------------------------------------------
  // Joint flip in flip_boxes
  // ---------------------------------------------------------------------

  /** One keypoint, the last axis of the (N, 17, 2) joint tensor. */
  datatype Joint = Joint(x: real, y: real)

  /** The joint tensor as values: row i, joint j. */
  function Grid(a: array2<Joint>): (g: seq<seq<Joint>>)
    reads a
    ensures |g| == a.Length0
    ensures forall i :: 0 <= i < |g| ==> |g[i]| == a.Length1
    ensures forall i, j :: 0 <= i < a.Length0 && 0 <= j < a.Length1 ==> g[i][j] == a[i, j]
  {
    seq(a.Length0, i reads a requires 0 <= i < a.Length0 =>
      seq(a.Length1, j reads a requires 0 <= i < a.Length0 && 0 <= j < a.Length1 => a[i, j]))
  }

  /** Mirror image of the joints in an image of width `w`: x becomes w - x,
      y is kept. */
  function Mirrored(g: seq<seq<Joint>>, w: real): (r: seq<seq<Joint>>)
    ensures |r| == |g|
    ensures forall i :: 0 <= i < |g| ==> |r[i]| == |g[i]|
    ensures forall i, j :: 0 <= i < |g| && 0 <= j < |g[i]| ==>
      r[i][j].x + g[i][j].x == w && r[i][j].y == g[i][j].y
  {
    seq(|g|, i requires 0 <= i < |g| => seq(|g[i]|, j requires 0 <= j < |g[i]| => Joint(w - g[i][j].x, g[i][j].y)))
  }

  /** Mirroring twice about the same width gives back the joints. */
  lemma {:induction false} MirroredTwice(g: seq<seq<Joint>>, w: real)
    ensures Mirrored(Mirrored(g, w), w) == g
  {
    var r := Mirrored(Mirrored(g, w), w);
    forall i | 0 <= i < |g|
      ensures r[i] == g[i]
    {
      forall j | 0 <= j < |g[i]|
        ensures r[i][j] == g[i][j]
      {
        assert r[i][j].x == g[i][j].x && r[i][j].y == g[i][j].y;
      }
    }
  }

  /** `human_joint[:,:,0] = w - human_joint[:,:,0]`, skipped when there is
      no row. */
  method FlipJoints(joints: array2<Joint>, w: real)
    modifies joints
    ensures Grid(joints) == Mirrored(old(Grid(joints)), w)
  {
    ghost var before: seq<seq<Joint>> := Grid(joints);
    if joints.Length0 != 0 {
      for i := 0 to joints.Length0
        invariant forall r: int, c: int :: 0 <= r < joints.Length0 && 0 <= c < joints.Length1 ==>
          joints[r, c] == if r < i then Joint(w - before[r][c].x, before[r][c].y) else before[r][c]
      {
        for j := 0 to joints.Length1
          invariant forall r: int, c: int :: 0 <= r < joints.Length0 && 0 <= c < joints.Length1 ==>
            joints[r, c] == if r < i || (r == i && c < j) then Joint(w - before[r][c].x, before[r][c].y) else before[r][c]
        {
          joints[i, j] := Joint(w - joints[i, j].x, joints[i, j].y);
        }
      }
    }
    forall r | 0 <= r < joints.Length0
      ensures Grid(joints)[r] == Mirrored(before, w)[r]
    {
      assert forall c :: 0 <= c < joints.Length1 ==> Grid(joints)[r][c] == Mirrored(before, w)[r][c];
    }
  }

  /** The pose branch of `flip_boxes`: with poses enabled, the detection's
      and the target's joints are both mirrored; otherwise neither changes. */
  method FlipPoseJoints(detJoints: array2<Joint>, targetJoints: array2<Joint>, w: real, pose: bool)
    requires detJoints != targetJoints
    modifies detJoints, targetJoints
    ensures Grid(detJoints) == if pose then Mirrored(old(Grid(detJoints)), w) else old(Grid(detJoints))
    ensures Grid(targetJoints) == if pose then Mirrored(old(Grid(targetJoints)), w) else old(Grid(targetJoints))
  {
    if pose {
      FlipJoints(detJoints, w);
      FlipJoints(targetJoints, w);
    }
  }

  /** Flipping with the same width twice restores the joints. */
  method FlipTwice(joints: array2<Joint>, w: real)
    modifies joints
    ensures Grid(joints) == old(Grid(joints))
  {
    ghost var before: seq<seq<Joint>> := Grid(joints);
    FlipJoints(joints, w);
    FlipJoints(joints, w);
    MirroredTwice(before, w);
  }

  // ---------------------------------------------------------------------
  // reshape(-1, 17, 2) in __getitem__
  // ---------------------------------------------------------------------

  /** The entries of a 2-D tensor in row-major order. */
  function Flatten(m: seq<seq<real>>): (f: seq<real>)
  {
    if |m| == 0 then [] else m[0] + Flatten(m[1..])
  }

  /** The first 34 * n entries regrouped into n rows of 17 (x, y) joints. */
  function ToJoints(f: seq<real>, n: nat): (r: seq<seq<Joint>>)
    requires |f| >= n * FlatJoints
    ensures |r| == n
    ensures forall k :: 0 <= k < n ==> |r[k]| == NumJoints
  {
    seq(n, k requires 0 <= k < n =>
      seq(NumJoints, j requires 0 <= j < NumJoints => Joint(f[FlatJoints * k + 2 * j], f[FlatJoints * k + 2 * j + 1])))
  }

  predicate Rectangular(m: seq<seq<real>>) {
    forall k :: 0 <= k < |m| ==> |m[k]| == |m[0]|
  }

  /** `reshape(-1, 17, 2)` on a 2-D joint tensor. An empty list is not 2-D
      and is left as it is; an entry count that is not a multiple of 34
      cannot be reshaped, and rows without entries give no joint row. */
  function ReshapeJoints(m: seq<seq<real>>): (r: Option<seq<seq<Joint>>>)
    requires Rectangular(m)
    ensures |m| == 0 ==> r == Some([])
    ensures r.None? <==> |m| > 0 && |Flatten(m)| % FlatJoints != 0
    ensures r.Some? ==> FlatJoints * |r.value| == |Flatten(m)|
  {
    if |m| == 0 then Some([])
    else
      var f := Flatten(m);
      if |f| % FlatJoints != 0 then None else Some(ToJoints(f, |f| / FlatJoints))
  }

  /** In rows of 34 numbers, entry j of row k lands at 34 * k + j. */
  lemma {:induction false} FlattenRows(m: seq<seq<real>>)
    requires forall k :: 0 <= k < |m| ==> |m[k]| == FlatJoints
    ensures |Flatten(m)| == FlatJoints * |m|
    ensures forall k, j :: 0 <= k < |m| && 0 <= j < FlatJoints ==> Flatten(m)[FlatJoints * k + j] == m[k][j]
  {
    if |m| > 0 {
      FlattenRows(m[1..]);
      forall k, j | 0 <= k < |m| && 0 <= j < FlatJoints
        ensures Flatten(m)[FlatJoints * k + j] == m[k][j]
      {
        if k > 0 {
          assert m[1..][k - 1] == m[k];
          assert Flatten(m)[FlatJoints * k + j] == Flatten(m[1..])[FlatJoints * (k - 1) + j];
        }
      }
    }
  }

  lemma ExactQuotient(n: nat)
    ensures (FlatJoints * n) % FlatJoints == 0 && (FlatJoints * n) / FlatJoints == n
  {
  }

  /** A list of flat 34-number joint rows becomes one row of 17 joints per
      input row, joint j of row k being (x, y) = (m[k][2j], m[k][2j+1]). */
  lemma ReshapeRowsOf34(m: seq<seq<real>>)
    requires |m| > 0
    requires forall k :: 0 <= k < |m| ==> |m[k]| == FlatJoints
    ensures ReshapeJoints(m).Some?
    ensures var r := ReshapeJoints(m).value;
      |r| == |m| &&
      forall k, j :: 0 <= k < |m| && 0 <= j < NumJoints ==> r[k][j] == Joint(m[k][2 * j], m[k][2 * j + 1])
  {
    FlattenRows(m);
    var f := Flatten(m);
    ExactQuotient(|m|);
    var r := ToJoints(f, |m|);
    assert ReshapeJoints(m) == Some(r);
    forall k, j | 0 <= k < |m| && 0 <= j < NumJoints
      ensures r[k][j] == Joint(m[k][2 * j], m[k][2 * j + 1])
    {
      assert f[FlatJoints * k + 2 * j] == m[k][2 * j];
      assert f[FlatJoints * k + (2 * j + 1)] == m[k][2 * j + 1];
    }
  }
}
