/** Index selection over parallel sequences: the boolean-mask, nonzero,
    fancy-indexing and argmax operations that the preprocessing scripts apply
    to their tensors, stated on Dafny sequences. */
module Seqs {

  predicate StrictlyIncreasing(s: seq<nat>) {
    forall a, b :: 0 <= a < b < |s| ==> s[a] < s[b]
  }

  /** The indices below `n` that satisfy `p`, in ascending order
      (what `torch.nonzero(mask)` and a boolean mask select). */
  function Where(n: nat, p: nat -> bool): (r: seq<nat>)
    ensures |r| <= n
    ensures StrictlyIncreasing(r)
    ensures forall t :: 0 <= t < |r| ==> r[t] < n && p(r[t])
    ensures forall i :: 0 <= i < n && p(i) ==> i in r
  {
    if n == 0 then [] else Where(n - 1, p) + if p(n - 1) then [n - 1] else []
  }

  /** Nothing is selected when no index qualifies. */
  lemma {:induction false} WhereNone(n: nat, p: nat -> bool)
    requires forall i :: 0 <= i < n ==> !p(i)
    ensures Where(n, p) == []
  {
    if n > 0 {
      WhereNone(n - 1, p);
    }
  }

  /** A mask and its negation split the indices between them. */
  lemma {:induction false} WhereComplement(n: nat, p: nat -> bool, q: nat -> bool)
    requires forall i :: 0 <= i < n ==> (q(i) <==> !p(i))
    ensures |Where(n, p)| + |Where(n, q)| == n
  {
    if n > 0 {
      WhereComplement(n - 1, p, q);
      assert q(n - 1) <==> !p(n - 1);
    }
  }

  /** A strictly increasing sequence spreads over at least its length. */
  lemma {:induction false} IncreasingSpread(s: seq<nat>)
    requires StrictlyIncreasing(s) && |s| > 0
    ensures s[|s| - 1] >= s[0] + |s| - 1
  {
    if |s| > 1 {
      IncreasingSpread(s[..|s| - 1]);
      assert s[|s| - 2] < s[|s| - 1];
    }
  }

  /** A strictly increasing sequence that holds `i` and nothing else is [i]. */
  lemma OnlyElement(s: seq<nat>, i: nat)
    requires StrictlyIncreasing(s) && i in s
    requires forall t :: 0 <= t < |s| ==> s[t] == i
    ensures s == [i]
  {
    IncreasingSpread(s);
  }

  /** `s[idx]`: the elements of `s` at the positions listed in `idx`. */
  function Gather<T>(s: seq<T>, idx: seq<nat>): (r: seq<T>)
    requires forall t :: 0 <= t < |idx| ==> idx[t] < |s|
    ensures |r| == |idx|
    ensures forall t :: 0 <= t < |idx| ==> r[t] == s[idx[t]]
  {
    seq(|idx|, t requires 0 <= t < |idx| => s[idx[t]])
  }

  /** `idx[torch.nonzero(q[idx])]`: the entries of `idx` that satisfy `q`,
      in the order `idx` lists them. */
  function Refine(idx: seq<nat>, q: nat -> bool): (r: seq<nat>)
    ensures |r| <= |idx|
    ensures forall t :: 0 <= t < |r| ==> r[t] in idx && q(r[t])
    ensures forall i :: i in idx && q(i) ==> i in r
    ensures StrictlyIncreasing(idx) ==> StrictlyIncreasing(r)
  {
    var w := Where(|idx|, (t: nat) => t < |idx| && q(idx[t]));
    var r := Gather(idx, w);
    assert forall i :: i in idx && q(i) ==> i in r by {
      forall i | i in idx && q(i)
        ensures i in r
      {
        var t :| 0 <= t < |idx| && idx[t] == i;
        assert t in w;
        var u :| 0 <= u < |w| && w[u] == t;
        assert r[u] == i;
      }
    }
    r
  }

  lemma HeadIn(s: seq<nat>)
    ensures |s| > 0 ==> s[0] in s
  {
  }

  lemma IncreasingTail(s: seq<nat>)
    requires StrictlyIncreasing(s) && |s| > 0
    ensures StrictlyIncreasing(s[1..])
    ensures forall y :: y in s[1..] <==> y in s && y != s[0]
    ensures forall y :: y in s ==> s[0] <= y
  {
    forall y
      ensures y in s[1..] <==> y in s && y != s[0]
    {
      if y in s && y != s[0] {
        var i :| 0 <= i < |s| && s[i] == y;
        assert s[1..][i - 1] == y;
      }
    }
  }

  /** Two strictly increasing sequences with the same members are equal. */
  lemma {:induction false} IncreasingUnique(a: seq<nat>, b: seq<nat>)
    requires StrictlyIncreasing(a) && StrictlyIncreasing(b)
    requires forall y :: y in a <==> y in b
    ensures a == b
  {
    HeadIn(a);
    HeadIn(b);
    if |a| > 0 && |b| > 0 {
      IncreasingTail(a);
      IncreasingTail(b);
      assert a[0] == b[0];
      IncreasingUnique(a[1..], b[1..]);
      assert a == [a[0]] + a[1..];
      assert b == [b[0]] + b[1..];
    }
  }

  /** Membership in a selection is the selecting predicate, below `n`. */
  lemma WhereMembers(n: nat, p: nat -> bool)
    ensures forall y: nat :: y in Where(n, p) <==> y < n && p(y)
  {
    var r := Where(n, p);
    forall y: nat | y in r
      ensures y < n && p(y)
    {
      var t :| 0 <= t < |r| && r[t] == y;
    }
  }

  /** Refining a mask selection is selecting by the conjunction of the two
      masks. */
  lemma RefineWhere(n: nat, p: nat -> bool, q: nat -> bool, pq: nat -> bool)
    requires forall i :: 0 <= i < n ==> (pq(i) <==> p(i) && q(i))
    ensures Refine(Where(n, p), q) == Where(n, pq)
  {
    var a, b := Refine(Where(n, p), q), Where(n, pq);
    WhereMembers(n, p);
    WhereMembers(n, pq);
    forall y
      ensures y in a <==> y in b
    {
      if y in a {
        var t :| 0 <= t < |a| && a[t] == y;
      }
    }
    IncreasingUnique(a, b);
  }

  /** The consecutive indices lo, lo + 1, ..., hi - 1. */
  function Range(lo: nat, hi: nat): (r: seq<nat>)
    ensures |r| == if lo <= hi then hi - lo else 0
    ensures forall t :: 0 <= t < |r| ==> r[t] == lo + t
  {
    if hi <= lo then [] else Range(lo, hi - 1) + [hi - 1]
  }

  function MinNat(a: nat, b: nat): nat { if a <= b then a else b }

  /** A selection whose predicate holds exactly on an interval is that interval. */
  lemma WhereInterval(n: nat, p: nat -> bool, lo: nat, hi: nat)
    requires lo <= hi
    requires forall i :: 0 <= i < n ==> (p(i) <==> lo <= i < hi)
    ensures Where(n, p) == Range(MinNat(lo, n), MinNat(hi, n))
  {
    var a, b := Where(n, p), Range(MinNat(lo, n), MinNat(hi, n));
    forall y
      ensures y in a <==> y in b
    {
      if y in b {
        var t :| 0 <= t < |b| && b[t] == y;
      }
      if y in a {
        var t :| 0 <= t < |a| && a[t] == y;
        assert b[y - MinNat(lo, n)] == y;
      }
    }
    IncreasingUnique(a, b);
  }

  lemma RangeConcat(a: nat, b: nat, c: nat)
    requires a <= b <= c
    ensures Range(a, b) + Range(b, c) == Range(a, c)
  {
  }

  lemma GatherAll<T>(s: seq<T>)
    ensures Gather(s, Range(0, |s|)) == s
  {
  }

  /** `torch.argmax`: the position of the first maximal element. */
  function ArgMax(s: seq<real>): (k: nat)
    requires |s| > 0
    ensures k < |s|
    ensures forall j :: 0 <= j < |s| ==> s[j] <= s[k]
    ensures forall j :: 0 <= j < k ==> s[j] < s[k]
  {
    if |s| == 1 then 0
    else
      var k := ArgMax(s[..|s| - 1]);
      if s[|s| - 1] > s[k] then |s| - 1 else k
  }

  /** The first maximum of the values attached to a selection of indices
      names a selected index whose value is maximal, and every selected index
      before it has a strictly smaller value. */
  lemma ArgMaxOfSelection(c: seq<nat>, vals: seq<real>, score: nat -> real)
    requires StrictlyIncreasing(c) && |c| > 0 && |vals| == |c|
    requires forall t :: 0 <= t < |c| ==> vals[t] == score(c[t])
    ensures forall i :: i in c ==> score(i) <= score(c[ArgMax(vals)])
    ensures forall i :: i in c && i < c[ArgMax(vals)] ==> score(i) < score(c[ArgMax(vals)])
  {
    var m := ArgMax(vals);
    forall i | i in c
      ensures score(i) <= score(c[m])
      ensures i < c[m] ==> score(i) < score(c[m])
    {
      var t :| 0 <= t < |c| && c[t] == i;
      assert vals[t] <= vals[m];
      if i < c[m] {
        assert t < m;
      }
    }
  }
}
