/**
 * How the sparse suppressor relates to the reference one. Both walk the same
 * order and keep a box unless an earlier kept box suppresses it; they differ
 * in the rule (the sparse one clears at IoU >= t, and only boxes with positive
 * intersection reach the test; the reference clears at IoU > t) and in the
 * score threshold (only the sparse one stops at it). Both sort the same
 * scores with the same quicksort, so they visit the same order. Where the
 * rules agree and no score is below the threshold, the two keep lists are
 * equal for the same order.
 */
module Equivalence {
  import opened Errors
  import opened Geometry
  import opened Ordering
  import opened SparseNms
  import opened NaiveNms

  /**
   * On these boxes the sparse rule and the reference rule decide alike for
   * every pair of distinct positions (a box never meets itself in a sweep:
   * it has left the mask before any later candidate is tested).
   */
  predicate RulesAgree(boxes: seq<Box>, t: real) {
    forall i, j :: 0 <= i < |boxes| && 0 <= j < |boxes| && i != j ==>
      (Suppresses(t, boxes[i], boxes[j]) <==> NaiveSuppresses(t, boxes[i], boxes[j]))
  }

  /** With a positive threshold the rules can only differ on a pair whose IoU equals it. */
  lemma AgreeWithoutTies(boxes: seq<Box>, t: real)
    requires Oriented(boxes) && t > 0.0
    requires forall i, j :: 0 <= i < |boxes| && 0 <= j < |boxes| && i != j ==> IoU(boxes[i], boxes[j]) != t
    ensures RulesAgree(boxes, t)
  {
    forall i, j | 0 <= i < |boxes| && 0 <= j < |boxes| && i != j
      ensures Suppresses(t, boxes[i], boxes[j]) <==> NaiveSuppresses(t, boxes[i], boxes[j])
    {
      IoUBounds(boxes[i], boxes[j]);
    }
  }

  /**
   * At iou_threshold 1, the largest value `nms` accepts, the rules agree on
   * every set of oriented boxes without duplicates: the sparse rule clears
   * only identical boxes, and no IoU exceeds 1.
   */
  lemma AgreeAtOne(boxes: seq<Box>)
    requires Oriented(boxes)
    requires forall i, j :: 0 <= i < j < |boxes| ==> boxes[i] != boxes[j]
    ensures RulesAgree(boxes, 1.0)
  {
    forall i, j | 0 <= i < |boxes| && 0 <= j < |boxes| && i != j
      ensures Suppresses(1.0, boxes[i], boxes[j]) <==> NaiveSuppresses(1.0, boxes[i], boxes[j])
    {
      IoUOneIdentical(boxes[i], boxes[j]);
      IoUBounds(boxes[i], boxes[j]);
    }
  }

  /**
   * At iou_threshold 0, the smallest value `nms` accepts, the rules agree on
   * every set of oriented boxes: both clear exactly the boxes with positive
   * intersection, since IoU is positive exactly when the intersection is.
   */
  lemma AgreeAtZero(boxes: seq<Box>)
    requires Oriented(boxes)
    ensures RulesAgree(boxes, 0.0)
  {
    forall i, j | 0 <= i < |boxes| && 0 <= j < |boxes| && i != j
      ensures Suppresses(0.0, boxes[i], boxes[j]) <==> NaiveSuppresses(0.0, boxes[i], boxes[j])
    {
      IoUBounds(boxes[i], boxes[j]);
    }
  }

  lemma SuppressedByAgree(boxes: seq<Box>, t: real, keep: seq<nat>, x: nat)
    requires x < |boxes| && x !in keep && RulesAgree(boxes, t)
    ensures SuppressedBy(boxes, t, keep, x) <==> NaiveSuppressedBy(boxes, t, keep, x)
  {
    if SuppressedBy(boxes, t, keep, x) {
      var k :| k in keep && k < |boxes| && Suppresses(t, boxes[k], boxes[x]);
      assert NaiveSuppresses(t, boxes[k], boxes[x]);
    }
    if NaiveSuppressedBy(boxes, t, keep, x) {
      var k :| k in keep && k < |boxes| && NaiveSuppresses(t, boxes[k], boxes[x]);
      assert Suppresses(t, boxes[k], boxes[x]);
    }
  }

  /**
   * When the rules agree and no score in the order is below the threshold,
   * the sweep over all boxes never stops early and keeps exactly what the
   * reference keeps.
   */
  lemma {:induction false} SweepMatchesNaive(boxes: seq<Box>, scores: seq<real>, order: seq<nat>, st: real, t: real)
    requires IsRanked(scores, order)
    requires forall i :: 0 <= i < |order| ==> order[i] < |boxes| && scores[order[i]] >= st
    requires RulesAgree(boxes, t)
    ensures Run(boxes, scores, order, st, t) == Running(NaiveRun(boxes, order, t))
    decreases |order|
  {
    if order != [] {
      var n := |order| - 1;
      var pre := order[..n];
      SweepMatchesNaive(boxes, scores, pre, st, t);
      var keep, x := NaiveRun(boxes, pre, t), order[n];
      DistinctPosition(scores, order, n);
      assert x !in keep;
      SuppressedByAgree(boxes, t, keep, x);
    }
  }

  /** The corrected `_nms` and `naive_nms` return the same list under those conditions. */
  lemma CorrectedMatchesNaive(boxes: seq<Box>, scores: seq<real>, iouT: real, st: real, order: seq<nat>)
    requires IsDescendingOrder(scores, order)
    requires boxes != [] && Oriented(boxes) && |boxes| == |scores|
    requires forall i :: 0 <= i < |scores| ==> scores[i] >= st
    requires RulesAgree(boxes, iouT)
    ensures SparseCorrectedSpec(boxes, scores, iouT, st, order) == Ok(NaiveRun(boxes, order, iouT))
  {
    SweepMatchesNaive(boxes, scores, order, st, iouT);
  }

  /** At iou_threshold 1, the corrected `_nms` and `naive_nms` agree on any boxes without duplicates. */
  lemma MatchesNaiveAtOne(boxes: seq<Box>, scores: seq<real>, st: real, order: seq<nat>)
    requires IsDescendingOrder(scores, order)
    requires boxes != [] && Oriented(boxes) && |boxes| == |scores|
    requires forall i :: 0 <= i < |scores| ==> scores[i] >= st
    requires forall i, j :: 0 <= i < j < |boxes| ==> boxes[i] != boxes[j]
    ensures SparseCorrectedSpec(boxes, scores, 1.0, st, order) == Ok(NaiveRun(boxes, order, 1.0))
  {
    AgreeAtOne(boxes);
    CorrectedMatchesNaive(boxes, scores, 1.0, st, order);
  }

  /** At iou_threshold 0 the corrected `_nms` and `naive_nms` return the same list. */
  lemma MatchesNaiveAtZero(boxes: seq<Box>, scores: seq<real>, st: real, order: seq<nat>)
    requires IsDescendingOrder(scores, order)
    requires boxes != [] && Oriented(boxes) && |boxes| == |scores|
    requires forall i :: 0 <= i < |scores| ==> scores[i] >= st
    ensures SparseCorrectedSpec(boxes, scores, 0.0, st, order) == Ok(NaiveRun(boxes, order, 0.0))
  {
    AgreeAtZero(boxes);
    CorrectedMatchesNaive(boxes, scores, 0.0, st, order);
  }

  /** The two boxes of the tie: the narrow one covers half of the wide one. */
  const TieWide := Box(0.0, 0.0, 2.0, 1.0)
  const TieNarrow := Box(0.0, 0.0, 1.0, 1.0)

  lemma TieWideArea() ensures Area(TieWide) == 2.0 { }
  lemma TieNarrowArea() ensures Area(TieNarrow) == 1.0 { }
  lemma TieIntersection() ensures Intersection(TieWide, TieNarrow) == 1.0 { }

  lemma HalfFromParts(a: Box, b: Box)
    requires Intersection(a, b) == 1.0 && Area(a) == 2.0 && Area(b) == 1.0
    ensures IoU(a, b) == 0.5
  { }

  /**
   * Any two boxes that overlap at IoU exactly t, ranked first then second:
   * the sparse sweep clears the second, the reference keeps both.
   */
  lemma TieDiverges(boxes: seq<Box>, scores: seq<real>, t: real)
    requires |boxes| == 2 && scores == [0.9, 0.8]
    requires Intersection(boxes[0], boxes[1]) > 0.0 && IoU(boxes[0], boxes[1]) == t
    ensures Run(boxes, scores, [0, 1], 0.0, t) == Running([0])
    ensures NaiveRun(boxes, [0, 1], t) == [0, 1]
  {
    assert Suppresses(t, boxes[0], boxes[1]) && !NaiveSuppresses(t, boxes[0], boxes[1]);
    TieSparse(boxes, scores, t);
    TieNaive(boxes, t);
  }

  /** The sparse half of the tie: when the first box suppresses the second, only the first is kept. */
  lemma TieSparse(boxes: seq<Box>, scores: seq<real>, t: real)
    requires |boxes| == 2 && scores == [0.9, 0.8]
    requires Suppresses(t, boxes[0], boxes[1])
    ensures Run(boxes, scores, [0, 1], 0.0, t) == Running([0])
  {
    var order: seq<nat> := [0, 1];
    assert order[..0] == [] && order[..2] == order;
    assert Live(boxes, t, [], 0);
    RunUnfold(boxes, scores, order, 0.0, t, 0);
    assert Run(boxes, scores, order[..1], 0.0, t) == Running([0]);
    assert [0][0] == 0 && SuppressedBy(boxes, t, [0], 1);
    RunUnfold(boxes, scores, order, 0.0, t, 1);
  }

  /** The reference half of the tie: when the first box does not suppress the second, both stay. */
  lemma TieNaive(boxes: seq<Box>, t: real)
    requires |boxes| == 2 && !NaiveSuppresses(t, boxes[0], boxes[1])
    ensures NaiveRun(boxes, [0, 1], t) == [0, 1]
  {
    var order: seq<nat> := [0, 1];
    assert order[..1] == [0] && order[..0] == [];
    assert !NaiveSuppressedBy(boxes, t, [], 0);
    assert NaiveRun(boxes, order[..1], t) == [0];
    assert !NaiveSuppressedBy(boxes, t, [0], 1);
    assert order[..2] == order;
  }

  /**
   * The concrete tie: boxes (0,0,2,1) and (0,0,1,1) overlap with IoU exactly
   * 1/2, so TieDiverges applies to them with iou_threshold 0.5.
   */
  lemma TieAtHalf()
    ensures Intersection(TieWide, TieNarrow) > 0.0 && IoU(TieWide, TieNarrow) == 0.5
  {
    TieWideArea(); TieNarrowArea(); TieIntersection();
    HalfFromParts(TieWide, TieNarrow);
  }
}
