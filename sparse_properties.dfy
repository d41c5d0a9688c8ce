/**
 * What `_nms` promises, proved about the reference sweep Run that the loop
 * computes: the keep list is ranked by score, its boxes do not suppress one
 * another, every position of the order is kept, cleared by an earlier kept
 * box, or never reached because of the `break`, and the mask only clears.
 */
module SparseProperties {
  import opened Errors
  import opened Geometry
  import opened Ordering
  import opened SparseNms

  /** Runs over two prefixes: the shorter one's keep list starts the longer one's. */
  lemma {:induction false} PrefixGrowth(tree: seq<Box>, scores: seq<real>, order: seq<nat>, st: real, t: real,
                                        i: nat, j: nat)
    requires i <= j <= |order|
    requires forall k :: 0 <= k < |order| ==> order[k] < |scores|
    ensures var si, sj := Run(tree, scores, order[..i], st, t), Run(tree, scores, order[..j], st, t);
            !sj.Fault? ==>
              && !si.Fault?
              && si.keep <= sj.keep
              && forall k :: k in sj.keep[|si.keep|..] ==> k in order[i..j]
    decreases j - i
  {
    if i < j {
      PrefixGrowth(tree, scores, order, st, t, i, j - 1);
      RunStep(tree, scores, order, st, t, j - 1);
      var si := Run(tree, scores, order[..i], st, t);
      var sm := Run(tree, scores, order[..j - 1], st, t);
      var sj := Run(tree, scores, order[..j], st, t);
      if !sj.Fault? {
        SliceGrows(order, i, j);
        GrowthStep(si.keep, sm.keep, sj.keep, order[i..j - 1], order[i..j], order[j - 1]);
      }
    } else {
      assert order[..i] == order[..j];
    }
  }

  /**
   * The keep list holds each index at most once, in visiting order, so its
   * scores never increase (the docstring's "sorted by decreasing score").
   */
  lemma {:induction false} KeptRanked(tree: seq<Box>, scores: seq<real>, order: seq<nat>, st: real, t: real)
    requires IsRanked(scores, order)
    ensures var s := Run(tree, scores, order, st, t);
            !s.Fault? ==> IsRanked(scores, s.keep)
    decreases |order|
  {
    if order != [] {
      var n := |order| - 1;
      var pre := order[..n];
      RankedPrefix(scores, order, n);
      KeptRanked(tree, scores, pre, st, t);
      var s := Run(tree, scores, pre, st, t);
      var x := order[n];
      if s.Running? && x < |tree| && Live(tree, t, s.keep, x) && scores[x] >= st {
        forall k | k in s.keep ensures k != x && scores[k] >= scores[x] {
          var i :| 0 <= i < n && pre[i] == k;
          assert order[i] == k;
        }
        RankedAppend(scores, s.keep, x);
      }
    }
  }

  /** No kept box clears a box kept after it. */
  lemma {:induction false} KeptPairwise(tree: seq<Box>, scores: seq<real>, order: seq<nat>, st: real, t: real)
    requires forall i :: 0 <= i < |order| ==> order[i] < |scores|
    ensures var s := Run(tree, scores, order, st, t);
            !s.Fault? ==> forall a, b :: 0 <= a < b < |s.keep| ==> !Suppresses(t, tree[s.keep[a]], tree[s.keep[b]])
    decreases |order|
  {
    if order != [] {
      var n := |order| - 1;
      KeptPairwise(tree, scores, order[..n], st, t);
      var s := Run(tree, scores, order[..n], st, t);
      var x := order[n];
      if s.Running? && x < |tree| && Live(tree, t, s.keep, x) && scores[x] >= st {
        var keep := s.keep + [x];
        forall a | 0 <= a < |s.keep| ensures !Suppresses(t, tree[keep[a]], tree[x]) {
          assert keep[a] == s.keep[a] && s.keep[a] in s.keep;
        }
      }
    }
  }

  /**
   * A ranked order of boxes that all reach the threshold and of which no box
   * clears a later one is kept whole: the sweep keeps every position.
   */
  lemma {:induction false} KeepsAllWhenClear(tree: seq<Box>, scores: seq<real>, order: seq<nat>, st: real, t: real)
    requires IsRanked(scores, order)
    requires forall i :: 0 <= i < |order| ==> order[i] < |tree| && scores[order[i]] >= st
    requires forall a, b :: 0 <= a < b < |order| ==> !Suppresses(t, tree[order[a]], tree[order[b]])
    ensures Run(tree, scores, order, st, t) == Running(order)
    decreases |order|
  {
    if order != [] {
      var n := |order| - 1;
      var pre, x := order[..n], order[n];
      RankedPrefix(scores, order, n);
      KeepsAllWhenClear(tree, scores, pre, st, t);
      LastClear(tree, scores, order, t);
      RunUnfold(tree, scores, order, st, t, n);
      StepKeeps(tree, scores, st, t, pre, x);
      assert order[..n + 1] == order == pre + [x];
    }
  }

  /** The last index of such an order is still live once all earlier ones are kept. */
  lemma LastClear(tree: seq<Box>, scores: seq<real>, order: seq<nat>, t: real)
    requires order != [] && IsRanked(scores, order) && order[|order| - 1] < |tree|
    requires forall a, b :: 0 <= a < b < |order| && order[a] < |tree| && order[b] < |tree| ==>
               !Suppresses(t, tree[order[a]], tree[order[b]])
    ensures Live(tree, t, order[..|order| - 1], order[|order| - 1])
  {
    var n := |order| - 1;
    var pre, x := order[..n], order[n];
    DistinctPosition(scores, order, n);
    forall k | k in pre && k < |tree| ensures !Suppresses(t, tree[k], tree[x]) {
      var a :| 0 <= a < n && pre[a] == k;
      assert order[a] == k;
    }
  }

  /**
   * Suppression is idempotent: sweeping again over the kept indices, in the
   * order they were kept, keeps every one of them.
   */
  lemma RerunKeepsAll(tree: seq<Box>, scores: seq<real>, order: seq<nat>, st: real, t: real)
    requires IsRanked(scores, order)
    ensures var s := Run(tree, scores, order, st, t);
            !s.Fault? ==> IsRanked(scores, s.keep) && Run(tree, scores, s.keep, st, t) == Running(s.keep)
  {
    var s := Run(tree, scores, order, st, t);
    KeptRanked(tree, scores, order, st, t);
    KeptAboveThreshold(tree, scores, order, st, t);
    KeptPairwise(tree, scores, order, st, t);
    if !s.Fault? {
      KeepsAllWhenClear(tree, scores, s.keep, st, t);
    }
  }

  /** Every kept box has a score of at least the threshold. */
  lemma {:induction false} KeptAboveThreshold(tree: seq<Box>, scores: seq<real>, order: seq<nat>, st: real, t: real)
    requires forall i :: 0 <= i < |order| ==> order[i] < |scores|
    ensures var s := Run(tree, scores, order, st, t);
            !s.Fault? ==> forall k :: k in s.keep ==> scores[k] >= st
    decreases |order|
  {
    if order != [] {
      KeptAboveThreshold(tree, scores, order[..|order| - 1], st, t);
    }
  }

  /**
   * With an exhaustive index, any two kept boxes have IoU below a positive
   * threshold; with a threshold of zero or less they do not overlap at all.
   */
  lemma KeptBelowThreshold(tree: seq<Box>, scores: seq<real>, order: seq<nat>, st: real, t: real)
    requires Oriented(tree)
    requires forall i :: 0 <= i < |order| ==> order[i] < |scores|
    ensures var s := Run(tree, scores, order, st, t);
            !s.Fault? ==> forall a, b :: 0 <= a < |s.keep| && 0 <= b < |s.keep| && a != b ==>
              && (t > 0.0 ==> IoU(tree[s.keep[a]], tree[s.keep[b]]) < t)
              && (t <= 0.0 ==> Intersection(tree[s.keep[a]], tree[s.keep[b]]) == 0.0)
  {
    var s := Run(tree, scores, order, st, t);
    if !s.Fault? {
      KeptPairwise(tree, scores, order, st, t);
      forall a, b | 0 <= a < |s.keep| && 0 <= b < |s.keep| && a != b
        ensures && (t > 0.0 ==> IoU(tree[s.keep[a]], tree[s.keep[b]]) < t)
                && (t <= 0.0 ==> Intersection(tree[s.keep[a]], tree[s.keep[b]]) == 0.0)
      {
        var u, v := tree[s.keep[a]], tree[s.keep[b]];
        IoUSymmetric(u, v);
        if a < b {
          NotSuppressedMeansBelow(t, u, v);
        } else {
          NotSuppressedMeansBelow(t, v, u);
        }
      }
    }
  }

  /** A pair the sparse rule lets stand has IoU below a positive threshold, or no overlap at all. */
  lemma NotSuppressedMeansBelow(t: real, u: Box, v: Box)
    requires IsOriented(u) && IsOriented(v) && !Suppresses(t, u, v)
    ensures t > 0.0 ==> IoU(u, v) < t
    ensures t <= 0.0 ==> Intersection(u, v) == 0.0
  {
    IoUBounds(u, v);
    IntersectionBounds(u, v);
  }

  /**
   * The index at position p is in the final keep list exactly when the sweep
   * reached p still running and found it live with a score at least the threshold.
   */
  lemma KeptIff(tree: seq<Box>, scores: seq<real>, order: seq<nat>, st: real, t: real, p: nat)
    requires IsRanked(scores, order)
    requires p < |order|
    ensures var before, x, final := Run(tree, scores, order[..p], st, t), order[p], Run(tree, scores, order, st, t);
            !final.Fault? ==>
              (x in final.keep <==> before.Running? && x < |tree| && Live(tree, t, before.keep, x) && scores[x] >= st)
  {
    var before, x, final := Run(tree, scores, order[..p], st, t), order[p], Run(tree, scores, order, st, t);
    var after := Run(tree, scores, order[..p + 1], st, t);
    RunUnfold(tree, scores, order, st, t, p);
    PrefixGrowth(tree, scores, order, st, t, p + 1, |order|);
    assert order[..|order|] == order;
    DistinctPosition(scores, order, p);
    if !final.Fault? {
      assert !after.Fault?;
      assert !before.Fault?;
      RunStep(tree, scores, order, st, t, p);
      KeptIffStep(before.keep, after.keep, final.keep, order[..p], order[p + 1..], x);
    }
  }

  /**
   * The fate of the box at position p of the order, against the keep list the
   * sweep had built before p: it is cleared because an earlier kept box
   * suppresses it; or it is the live box below the threshold where the loop
   * breaks; or the loop broke before p and it is never reached. Otherwise it
   * is kept (KeptIff), or it is past the filtered mask and the sweep fails.
   */
  lemma PositionFate(tree: seq<Box>, scores: seq<real>, order: seq<nat>, st: real, t: real, p: nat)
    requires IsRanked(scores, order)
    requires p < |order|
    ensures var before, x, final := Run(tree, scores, order[..p], st, t), order[p], Run(tree, scores, order, st, t);
            && (before.Stopped? ==> final == before && x !in final.keep)
            && (before.Running? && x >= |tree| ==> final.Fault?)
            && (before.Running? && x < |tree| && !Live(tree, t, before.keep, x) ==>
                  SuppressedBy(tree, t, before.keep, x) && (!final.Fault? ==> x !in final.keep))
            && (before.Running? && x < |tree| && Live(tree, t, before.keep, x) && scores[x] < st ==>
                  final == Stopped(before.keep))
  {
    var before, x := Run(tree, scores, order[..p], st, t), order[p];
    RunUnfold(tree, scores, order, st, t, p);
    DistinctPosition(scores, order, p);
    if before.Stopped? {
      RunSettled(tree, scores, order, st, t, p);
      assert x !in before.keep;
    } else if before.Running? {
      assert x !in before.keep;
      if x >= |tree| || (Live(tree, t, before.keep, x) && scores[x] < st) {
        RunSettled(tree, scores, order, st, t, p + 1);
      } else if !Live(tree, t, before.keep, x) {
        KeptIff(tree, scores, order, st, t, p);
      }
    }
  }

  /**
   * Once the loop breaks at position p (line 62), the sweep is over: the
   * final state is stopped and no box from position p on is kept.
   */
  lemma NothingKeptAfterBreak(tree: seq<Box>, scores: seq<real>, order: seq<nat>, st: real, t: real, p: nat)
    requires IsRanked(scores, order)
    requires p < |order|
    requires Run(tree, scores, order[..p + 1], st, t).Stopped?
    ensures var final := Run(tree, scores, order, st, t);
            final.Stopped? && forall q :: p <= q < |order| ==> order[q] !in final.keep
  {
    var before := Run(tree, scores, order[..p], st, t);
    RunUnfold(tree, scores, order, st, t, p);
    RunSettled(tree, scores, order, st, t, p + 1);
    assert Run(tree, scores, order, st, t).keep == before.keep;
  }

  /** The mask only clears: whatever is live after more of the order was live before. */
  lemma MaskOnlyClears(tree: seq<Box>, scores: seq<real>, order: seq<nat>, st: real, t: real, p: nat, q: nat)
    requires p <= q <= |order|
    requires forall i :: 0 <= i < |order| ==> order[i] < |scores|
    ensures var sp, sq := Run(tree, scores, order[..p], st, t), Run(tree, scores, order[..q], st, t);
            !sq.Fault? ==> !sp.Fault? && forall y :: 0 <= y < |tree| && Live(tree, t, sq.keep, y) ==> Live(tree, t, sp.keep, y)
  {
    PrefixGrowth(tree, scores, order, st, t, p, q);
    var sp, sq := Run(tree, scores, order[..p], st, t), Run(tree, scores, order[..q], st, t);
    if !sq.Fault? {
      assert forall k :: k in sp.keep ==> k in sq.keep by {
        forall k | k in sp.keep ensures k in sq.keep {
          var m :| 0 <= m < |sp.keep| && sp.keep[m] == k;
          assert sq.keep[m] == k;
        }
      }
    }
  }

  /** When every index of the order is a box of the tree, the mask is never read out of range. */
  lemma {:induction false} NoFault(tree: seq<Box>, scores: seq<real>, order: seq<nat>, st: real, t: real)
    requires forall i :: 0 <= i < |order| ==> order[i] < |scores| && order[i] < |tree|
    ensures !Run(tree, scores, order, st, t).Fault?
    decreases |order|
  {
    if order != [] {
      NoFault(tree, scores, order[..|order| - 1], st, t);
    }
  }

  /**
   * Raising the score threshold never lengthens the keep list: the list for
   * the higher threshold is a prefix of the list for the lower one.
   */
  lemma {:induction false} RaisingScoreThreshold(tree: seq<Box>, scores: seq<real>, order: seq<nat>,
                                                 st1: real, st2: real, t: real)
    requires st1 <= st2
    requires forall i :: 0 <= i < |order| ==> order[i] < |scores| && order[i] < |tree|
    ensures var s1, s2 := Run(tree, scores, order, st1, t), Run(tree, scores, order, st2, t);
            && !s1.Fault? && !s2.Fault?
            && s2.keep <= s1.keep
            && (s2.Running? ==> s1 == s2)
    decreases |order|
  {
    NoFault(tree, scores, order, st1, t);
    NoFault(tree, scores, order, st2, t);
    if order != [] {
      var pre := order[..|order| - 1];
      RaisingScoreThreshold(tree, scores, pre, st1, st2, t);
      var p1, p2 := Run(tree, scores, pre, st1, t), Run(tree, scores, pre, st2, t);
      var s1, s2 := Run(tree, scores, order, st1, t), Run(tree, scores, order, st2, t);
      assert p2.keep <= p1.keep;
      if s1.keep != p1.keep {
        assert s1.keep == p1.keep + [order[|order| - 1]];
        assert p1.keep <= s1.keep;
      }
    }
  }

  /** When every score is above the threshold, line 43 filters nothing and both variants agree. */
  lemma FilterIsNoOpAboveThreshold(boxes: seq<Box>, scores: seq<real>, iouT: real, st: real, order: seq<nat>)
    requires IsDescendingOrder(scores, order)
    requires forall i :: 0 <= i < |scores| ==> scores[i] > st
    ensures SparseSpec(boxes, scores, iouT, st, order) == SparseCorrectedSpec(boxes, scores, iouT, st, order)
  {
  }

  /** Without the filter the indices stay aligned: the corrected sweep never reads past its mask. */
  lemma CorrectedNeverOutOfRange(boxes: seq<Box>, scores: seq<real>, iouT: real, st: real, order: seq<nat>)
    requires IsDescendingOrder(scores, order)
    ensures SparseCorrectedSpec(boxes, scores, iouT, st, order) != Err(IndexOutOfRange)
  {
    if Precheck(boxes, scores).None? {
      NoFault(boxes, scores, order, st, iouT);
    }
  }

  /**
   * Line 43 as written: two oriented boxes, the first scored at or below
   * score_threshold and the second above it. Only the second box survives
   * the filter, so the mask has one entry, and the first index visited (1,
   * the higher score) is past its end. This holds for every IoU threshold;
   * scores [0.1, 0.9] with score_threshold 0.5 are one such input.
   */
  lemma FilterMisalignsIndices(a: Box, b: Box, scores: seq<real>, st: real, iouT: real)
    requires IsOriented(a) && IsOriented(b)
    requires |scores| == 2 && scores[0] <= st < scores[1]
    ensures IsDescendingOrder(scores, [1, 0])
    ensures SparseSpec([a, b], scores, iouT, st, [1, 0]) == Err(IndexOutOfRange)
  {
    assert IsDescendingOrder(scores, [1, 0]);
    PairPasses(a, b, scores);
    OnlySecondSurvives(a, b, scores, st);
    OneEntryMaskFaults(b, scores, st, iouT);
    assert Run(Filter([a, b], scores, st), scores, [1, 0], st, iouT) == Fault;
  }

  /** The sweep over a single surviving box visits index 1 first and reads past the mask. */
  lemma OneEntryMaskFaults(b: Box, scores: seq<real>, st: real, iouT: real)
    requires |scores| == 2
    ensures Run([b], scores, [1, 0], st, iouT) == Fault
  {
    var order: seq<nat> := [1, 0];
    assert order[..1] == [1] && order[..0] == [];
    assert Run([b], scores, order[..1], st, iouT) == Fault;
    RunUnfold([b], scores, order, st, iouT, 1);
    assert order[..2] == order;
  }

  /** With only the second score above the threshold, the filter keeps only the second box. */
  lemma OnlySecondSurvives(a: Box, b: Box, scores: seq<real>, st: real)
    requires |scores| == 2 && scores[0] <= st < scores[1]
    ensures Filter([a, b], scores, st) == [b]
  {
    var tail := scores[1..];
    assert tail[1..] == [] && tail[0] > st;
    assert Survivors(tail[1..], st) == [];
    assert Survivors(tail, st) == [0] + Shift([]);
    assert Shift([0]) == [1];
    assert Survivors(scores, st) == [1];
  }

  /** A box below the threshold leaves the keep list as it is, whether it is live or not. */
  lemma StepBelowThreshold(tree: seq<Box>, scores: seq<real>, st: real, t: real, s: SweepState, x: nat)
    requires x < |scores| && x < |tree| && scores[x] < st && s.Running?
    ensures Step(tree, scores, st, t, s, x) in {Running(s.keep), Stopped(s.keep)}
  {
  }

  /** The sweep over the unfiltered pair keeps index 1 and then stops at index 0. */
  lemma UnfilteredSweep(a: Box, b: Box, iouT: real)
    ensures var s := Run([a, b], [0.1, 0.9], [1, 0], 0.5, iouT); !s.Fault? && s.keep == [1]
  {
    var boxes, scores, order: seq<nat> := [a, b], [0.1, 0.9], [1, 0];
    assert order[..0] == [];
    RunUnfold(boxes, scores, order, 0.5, iouT, 0);
    assert Live(boxes, iouT, [], 1);
    RunUnfold(boxes, scores, order, 0.5, iouT, 1);
    assert order[..2] == order;
    StepBelowThreshold(boxes, scores, 0.5, iouT, Running([1]), 0);
  }

  lemma PairPasses(a: Box, b: Box, scores: seq<real>)
    requires IsOriented(a) && IsOriented(b) && |scores| == 2
    ensures Precheck([a, b], scores).None?
  {
    assert Oriented([a, b]);
  }

  /** The same input without the filter: the sweep keeps [1] and stops at index 0. */
  lemma UnfilteredKeepsHigherScore(a: Box, b: Box, iouT: real)
    requires IsOriented(a) && IsOriented(b)
    ensures IsDescendingOrder([0.1, 0.9], [1, 0])
    ensures SparseCorrectedSpec([a, b], [0.1, 0.9], iouT, 0.5, [1, 0]) == Ok([1])
  {
    PairPasses(a, b, [0.1, 0.9]);
    PairOrder([0.1, 0.9], 1);
    UnfilteredSweep(a, b, iouT);
    RunsCorrected([a, b], [0.1, 0.9], iouT, 0.5, [1, 0]);
  }
}
