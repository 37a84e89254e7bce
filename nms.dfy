/** Greedy non-maximum suppression, standing in for the library call
    `batched_nms(boxes, scores, labels, 0.5)`. Every row handed to it by the
    merge carries the same (human) label, so the per-class separation plays
    no part. Boxes are visited by descending priority, equal priorities in
    input order; a box is dropped when its IoU with an already kept box is
    above the threshold. */
module Nms {
  import opened Seqs
  import opened Geometry

  const NmsThreshold: real := 0.5

  /** Row `i` is visited before row `j`: higher priority first, then lower
      index. A strict total order on the rows. */
  predicate Before(pri: seq<real>, i: nat, j: nat) {
    i < |pri| && j < |pri| && (pri[i] > pri[j] || (pri[i] == pri[j] && i < j))
  }

  predicate Ranked(pri: seq<real>, s: seq<nat>) {
    forall a, b :: 0 <= a < b < |s| ==> Before(pri, s[a], s[b])
  }

  /** Kept row `k` knocks out row `i`. */
  predicate Suppresses(boxes: seq<Box>, k: nat, i: nat) {
    k < |boxes| && i < |boxes| && IouExceeds(boxes[k], boxes[i], NmsThreshold)
  }

  /** What a list of kept indices must satisfy: indices in range, listed by
      descending priority (hence distinct), no kept box suppressed by an
      earlier kept one, and every dropped box suppressed by a kept box that
      comes before it. */
  predicate IsGreedyNms(boxes: seq<Box>, pri: seq<real>, keep: seq<nat>) {
    |boxes| == |pri| &&
    (forall t :: 0 <= t < |keep| ==> keep[t] < |boxes|) &&
    Ranked(pri, keep) &&
    (forall a, b :: 0 <= a < b < |keep| ==> !Suppresses(boxes, keep[a], keep[b])) &&
    (forall i :: 0 <= i < |boxes| && i !in keep ==> Dropped(boxes, pri, keep, i))
  }

  predicate Dropped(boxes: seq<Box>, pri: seq<real>, keep: seq<nat>, i: nat) {
    exists t :: 0 <= t < |keep| && Before(pri, keep[t], i) && Suppresses(boxes, keep[t], i)
  }

  /** Inserts row `x` into a visiting order. */
  function Insert(pri: seq<real>, x: nat, s: seq<nat>): (r: seq<nat>)
    requires x < |pri| && Ranked(pri, s)
    requires forall t :: 0 <= t < |s| ==> s[t] < |pri| && s[t] != x
    ensures Ranked(pri, r)
    ensures forall y :: y in r <==> y == x || y in s
  {
    if s == [] then [x]
    else if Before(pri, x, s[0]) then [x] + s
    else
      var rest := Insert(pri, x, s[1..]);
      assert forall b :: 0 <= b < |rest| ==> rest[b] == x || rest[b] in s[1..];
      [s[0]] + rest
  }

  /** The visiting order of rows 0 .. n-1. */
  function Order(pri: seq<real>, n: nat): (r: seq<nat>)
    requires n <= |pri|
    ensures Ranked(pri, r)
    ensures forall y: nat :: y in r <==> y < n
    ensures forall t :: 0 <= t < |r| ==> r[t] < n
  {
    if n == 0 then []
    else
      var prev := Order(pri, n - 1);
      var r := Insert(pri, n - 1, prev);
      assert forall y :: y in r <==> y == n - 1 || y in prev;
      assert forall t :: 0 <= t < |r| ==> r[t] in r;
      r
  }

  /** What holds after the first `s` rows of the visiting order have been
      swept: the kept rows are in range, in visiting order, do not suppress
      one another, precede every row still to visit, and every swept row left
      out is suppressed by an earlier kept row. */
  predicate SweepInv(boxes: seq<Box>, pri: seq<real>, order: seq<nat>, keep: seq<nat>, s: nat) {
    s <= |order| &&
    (forall t :: 0 <= t < |keep| ==> keep[t] < |boxes|) &&
    Ranked(pri, keep) &&
    (forall a, b :: 0 <= a < b < |keep| ==> !Suppresses(boxes, keep[a], keep[b])) &&
    (forall t, u :: 0 <= t < |keep| && s <= u < |order| ==> Before(pri, keep[t], order[u])) &&
    (forall u :: 0 <= u < s && order[u] !in keep ==> Dropped(boxes, pri, keep, order[u]))
  }

  /** Sweeps the rows in visiting order and keeps each one that no kept box
      suppresses. */
  method GreedyNms(boxes: seq<Box>, pri: seq<real>) returns (keep: seq<nat>)
    requires |boxes| == |pri|
    ensures IsGreedyNms(boxes, pri, keep)
  {
    var order := Order(pri, |pri|);
    keep := [];
    for s := 0 to |order|
      invariant SweepInv(boxes, pri, order, keep, s)
    {
      var i := order[s];
      var suppressed := IsSuppressed(boxes, keep, i);
      if suppressed {
        SkipStep(boxes, pri, order, keep, s);
      } else {
        KeepStep(boxes, pri, order, keep, s);
        keep := keep + [i];
      }
    }
    forall i | 0 <= i < |boxes| && i !in keep
      ensures Dropped(boxes, pri, keep, i)
    {
      assert i in order;
    }
  }

  /** A suppressed row is left out and the sweep moves on. */
  lemma SkipStep(boxes: seq<Box>, pri: seq<real>, order: seq<nat>, keep: seq<nat>, s: nat)
    requires SweepInv(boxes, pri, order, keep, s) && s < |order|
    requires exists t :: 0 <= t < |keep| && Suppresses(boxes, keep[t], order[s])
    ensures SweepInv(boxes, pri, order, keep, s + 1)
  {
    var t :| 0 <= t < |keep| && Suppresses(boxes, keep[t], order[s]);
    assert Before(pri, keep[t], order[s]);
  }

  /** A row no kept row suppresses is kept and the sweep moves on. */
  lemma KeepStep(boxes: seq<Box>, pri: seq<real>, order: seq<nat>, keep: seq<nat>, s: nat)
    requires |boxes| == |pri| && Ranked(pri, order)
    requires forall t :: 0 <= t < |order| ==> order[t] < |pri|
    requires SweepInv(boxes, pri, order, keep, s) && s < |order|
    requires !exists t :: 0 <= t < |keep| && Suppresses(boxes, keep[t], order[s])
    ensures SweepInv(boxes, pri, order, keep + [order[s]], s + 1)
  {
    DroppedStays(boxes, pri, keep, order[s]);
  }

  /** Scans the kept rows for one that suppresses row `i`. */
  method IsSuppressed(boxes: seq<Box>, keep: seq<nat>, i: nat) returns (suppressed: bool)
    ensures suppressed <==> exists t :: 0 <= t < |keep| && Suppresses(boxes, keep[t], i)
  {
    suppressed := false;
    for t := 0 to |keep|
      invariant suppressed <==> exists v :: 0 <= v < t && Suppresses(boxes, keep[v], i)
    {
      if Suppresses(boxes, keep[t], i) {
        suppressed := true;
      }
    }
  }

  /** Keeping one more row does not bring back a dropped one. */
  lemma DroppedStays(boxes: seq<Box>, pri: seq<real>, keep: seq<nat>, x: nat)
    ensures forall i :: Dropped(boxes, pri, keep, i) ==> Dropped(boxes, pri, keep + [x], i)
  {
    forall i | Dropped(boxes, pri, keep, i)
      ensures Dropped(boxes, pri, keep + [x], i)
    {
      var t :| 0 <= t < |keep| && Before(pri, keep[t], i) && Suppresses(boxes, keep[t], i);
      assert (keep + [x])[t] == keep[t];
    }
  }

  /** The outcome of the sweep is determined by the boxes and priorities:
      any two kept lists that satisfy IsGreedyNms are the same list. */
  lemma GreedyNmsUnique(boxes: seq<Box>, pri: seq<real>, k1: seq<nat>, k2: seq<nat>)
    requires IsGreedyNms(boxes, pri, k1) && IsGreedyNms(boxes, pri, k2)
    ensures k1 == k2
  {
    var ord := Order(pri, |boxes|);
    for s := 0 to |ord|
      invariant forall u :: 0 <= u < s ==> (ord[u] in k1 <==> ord[u] in k2)
    {
      var m := ord[s];
      forall j | Before(pri, j, m)
        ensures j in k1 <==> j in k2
      {
        assert j in ord;
        EarlierInOrder(pri, ord, s, j);
        var u :| 0 <= u < s && ord[u] == j;
      }
      AgreeAt(boxes, pri, k1, k2, m);
      AgreeAt(boxes, pri, k2, k1, m);
    }
    forall y: nat
      ensures y in k1 <==> y in k2
    {
      if y in k1 || y in k2 {
        assert y < |boxes|;
        assert y in ord;
      }
    }
    RankedUnique(pri, k1, k2);
  }

  /** In a visiting order, a row visited before the one at position `s` is
      listed before position `s`. */
  lemma EarlierInOrder(pri: seq<real>, ord: seq<nat>, s: nat, j: nat)
    requires Ranked(pri, ord) && s < |ord| && j in ord && Before(pri, j, ord[s])
    ensures exists u :: 0 <= u < s && ord[u] == j
  {
    var u :| 0 <= u < |ord| && ord[u] == j;
    assert u < s;
  }

  /** If the two lists agree on every row visited before `m`, a row `m`
      that the second list drops is dropped by the first as well. */
  lemma AgreeAt(boxes: seq<Box>, pri: seq<real>, k1: seq<nat>, k2: seq<nat>, m: nat)
    requires IsGreedyNms(boxes, pri, k1) && IsGreedyNms(boxes, pri, k2)
    requires m < |boxes|
    requires forall j :: Before(pri, j, m) ==> (j in k1 <==> j in k2)
    ensures m in k1 ==> m in k2
  {
    if m !in k2 {
      var t :| 0 <= t < |k2| && Before(pri, k2[t], m) && Suppresses(boxes, k2[t], m);
      var j := k2[t];
      assert j in k1;
      var a :| 0 <= a < |k1| && k1[a] == j;
      forall b | 0 <= b < |k1|
        ensures k1[b] != m
      {
        if a < b {
          assert !Suppresses(boxes, k1[a], k1[b]);
        } else if b < a {
          assert Before(pri, k1[b], k1[a]);
        }
      }
    }
  }

  /** Two lists in visiting order with the same members are equal. */
  lemma {:induction false} RankedUnique(pri: seq<real>, a: seq<nat>, b: seq<nat>)
    requires Ranked(pri, a) && Ranked(pri, b)
    requires forall y :: y in a <==> y in b
    ensures a == b
  {
    HeadIn(a);
    HeadIn(b);
    if |a| > 0 && |b| > 0 {
      TailMembers(pri, a);
      TailMembers(pri, b);
      assert a[0] == b[0];
      RankedUnique(pri, a[1..], b[1..]);
      assert a == [a[0]] + a[1..];
      assert b == [b[0]] + b[1..];
    }
  }

  lemma TailMembers(pri: seq<real>, s: seq<nat>)
    requires Ranked(pri, s) && |s| > 0
    ensures Ranked(pri, s[1..])
    ensures forall y :: y in s[1..] <==> y in s && y != s[0]
    ensures forall y :: y in s[1..] ==> Before(pri, s[0], y)
  {
    forall y
      ensures y in s[1..] <==> y in s && y != s[0]
      ensures y in s[1..] ==> Before(pri, s[0], y)
    {
      if y in s[1..] {
        var i :| 0 <= i < |s| - 1 && s[1..][i] == y;
        assert Before(pri, s[0], s[i + 1]);
      }
      if y in s && y != s[0] {
        var i :| 0 <= i < |s| && s[i] == y;
        assert s[1..][i - 1] == y;
      }
    }
  }

  /** Of two kept rows, the one visited first does not suppress the other. */
  lemma KeptNotSuppressed(boxes: seq<Box>, pri: seq<real>, keep: seq<nat>, a: nat, b: nat)
    requires IsGreedyNms(boxes, pri, keep)
    requires a in keep && b in keep && Before(pri, a, b)
    ensures !Suppresses(boxes, a, b)
  {
    var x :| 0 <= x < |keep| && keep[x] == a;
    var y :| 0 <= y < |keep| && keep[y] == b;
    assert x < y;
  }
}
