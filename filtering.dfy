/**
 * Java's `stream().filter(p).collect(toList())` on sequences, and the fact that it keeps
 * encounter order: the result is the input read at a strictly increasing list of positions,
 * which are exactly the positions of the kept elements.
 */
module Filtering {

  /** The elements of `xs` that satisfy `keep`, in encounter order. */
  function Filter<X>(xs: seq<X>, keep: X -> bool): (r: seq<X>)
    ensures |r| <= |xs|
    ensures forall k :: 0 <= k < |r| ==> keep(r[k])
    decreases |xs|
  {
    if |xs| == 0 then [] else (if keep(xs[0]) then [xs[0]] else []) + Filter(xs[1..], keep)
  }

  /** The filter keeps something exactly when some element satisfies `keep`. */
  lemma {:induction false} FilterNonEmpty<X>(xs: seq<X>, keep: X -> bool)
    ensures |Filter(xs, keep)| > 0 <==> exists i :: 0 <= i < |xs| && keep(xs[i])
    decreases |xs|
  {
    if |xs| > 0 {
      FilterNonEmpty(xs[1..], keep);
      if exists i :: 0 <= i < |xs[1..]| && keep(xs[1..][i]) {
        var i :| 0 <= i < |xs[1..]| && keep(xs[1..][i]);
        assert keep(xs[i + 1]);
      }
      if exists i :: 0 <= i < |xs| && keep(xs[i]) {
        var i :| 0 <= i < |xs| && keep(xs[i]);
        if i > 0 {
          assert keep(xs[1..][i - 1]);
        }
      }
    }
  }

  /** Java's `Predicate.negate()`. */
  function Negate<X>(p: X -> bool): X -> bool
  {
    x => !p(x)
  }

  lemma {:induction false} FilterAppend<X>(a: seq<X>, b: seq<X>, keep: X -> bool)
    ensures Filter(a + b, keep) == Filter(a, keep) + Filter(b, keep)
    decreases |a|
  {
    if |a| == 0 {
      assert a + b == b;
    } else {
      assert (a + b)[0] == a[0];
      assert (a + b)[1..] == a[1..] + b;
      FilterAppend(a[1..], b, keep);
    }
  }

  ghost predicate StrictlyIncreasing(s: seq<nat>)
  {
    forall i, j :: 0 <= i < j < |s| ==> s[i] < s[j]
  }

  function Shift(s: seq<nat>): seq<nat>
  {
    seq(|s|, k requires 0 <= k < |s| => s[k] + 1)
  }

  /** The positions of `xs` whose element satisfies `keep`, in increasing order. */
  function KeptIndices<X>(xs: seq<X>, keep: X -> bool): seq<nat>
    decreases |xs|
  {
    if |xs| == 0 then [] else (if keep(xs[0]) then [0] else []) + Shift(KeptIndices(xs[1..], keep))
  }

  lemma ShiftMembership(s: seq<nat>, i: nat)
    ensures i in Shift(s) <==> i >= 1 && (i - 1) in s
  {
    if i in Shift(s) {
      var k :| 0 <= k < |s| && Shift(s)[k] == i;
      assert s[k] == i - 1;
    }
    if i >= 1 && (i - 1) in s {
      var k :| 0 <= k < |s| && s[k] == i - 1;
      assert Shift(s)[k] == i;
    }
  }

  /** The kept positions come in strictly increasing order. */
  lemma {:induction false} KeptIndicesIncrease<X>(xs: seq<X>, keep: X -> bool)
    ensures StrictlyIncreasing(KeptIndices(xs, keep))
    decreases |xs|
  {
    if |xs| > 0 {
      KeptIndicesIncrease(xs[1..], keep);
      var rest := KeptIndices(xs[1..], keep);
      var head: seq<nat> := if keep(xs[0]) then [0] else [];
      var idx := KeptIndices(xs, keep);
      assert idx == head + Shift(rest);
      forall a, b | 0 <= a < b < |idx|
        ensures idx[a] < idx[b]
      {
        assert idx[b] == rest[b - |head|] + 1;
        if a >= |head| {
          assert idx[a] == rest[a - |head|] + 1;
        }
      }
    }
  }

  /**
   * The filter reads `xs` at the kept positions, which increase (KeptIndicesIncrease):
   * encounter order is kept.
   */
  lemma {:induction false} FilterSelectsInOrder<X>(xs: seq<X>, keep: X -> bool)
    ensures |KeptIndices(xs, keep)| == |Filter(xs, keep)|
    ensures forall k :: 0 <= k < |KeptIndices(xs, keep)| ==>
              KeptIndices(xs, keep)[k] < |xs| && Filter(xs, keep)[k] == xs[KeptIndices(xs, keep)[k]]
    decreases |xs|
  {
    if |xs| > 0 {
      var tail := xs[1..];
      FilterSelectsInOrder(tail, keep);
      assert xs == [xs[0]] + tail;
      SelectsCons(xs[0], tail, KeptIndices(tail, keep), Filter(tail, keep), keep(xs[0]));
    }
  }

  /** Reading `tail` at `rest` gives `ft`; then reading `[x] + tail` at the shifted positions, headed by 0 when `x` is kept, gives `ft` headed by `x`. */
  lemma SelectsCons<X>(x: X, tail: seq<X>, rest: seq<nat>, ft: seq<X>, kept: bool)
    requires |rest| == |ft|
    requires forall k :: 0 <= k < |rest| ==> rest[k] < |tail| && ft[k] == tail[rest[k]]
    ensures var idx, f, xs := (if kept then [0] else []) + Shift(rest), (if kept then [x] else []) + ft, [x] + tail;
      |idx| == |f| && forall k :: 0 <= k < |idx| ==> idx[k] < |xs| && f[k] == xs[idx[k]]
  {
    var head: seq<nat> := if kept then [0] else [];
    var idx, f, xs := head + Shift(rest), (if kept then [x] else []) + ft, [x] + tail;
    forall k | 0 <= k < |idx|
      ensures idx[k] < |xs| && f[k] == xs[idx[k]]
    {
      if k >= |head| {
        assert idx[k] == rest[k - |head|] + 1;
        assert xs[idx[k]] == tail[rest[k - |head|]];
      }
    }
  }

  /** A position is kept exactly when its element satisfies `keep`: nothing is skipped. */
  lemma {:induction false} KeptIndicesAreTheKeptPositions<X>(xs: seq<X>, keep: X -> bool)
    ensures forall i :: 0 <= i < |xs| ==> (i in KeptIndices(xs, keep) <==> keep(xs[i]))
    decreases |xs|
  {
    if |xs| > 0 {
      var tail := xs[1..];
      KeptIndicesAreTheKeptPositions(tail, keep);
      var rest := KeptIndices(tail, keep);
      var head: seq<nat> := if keep(xs[0]) then [0] else [];
      assert KeptIndices(xs, keep) == head + Shift(rest);
      forall i | 0 <= i < |xs|
        ensures i in KeptIndices(xs, keep) <==> keep(xs[i])
      {
        ShiftMembership(rest, i);
        if i > 0 {
          assert xs[i] == tail[i - 1];
        }
      }
    }
  }
}
