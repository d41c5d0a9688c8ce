/**
 * `naive_nms` in lsnms/nms.py: the quadratic reference suppressor. Its
 * `suppressed` mask is indexed by position in the order, not by box index,
 * a later position is suppressed when its IoU with the current kept box is
 * strictly above the threshold, and the score threshold is never read.
 */
module NaiveNms {
  import opened Geometry
  import opened Ordering

  /** Line 136: the kept box `a` suppresses `b` when IoU(a, b) > t. */
  predicate NaiveSuppresses(t: real, a: Box, b: Box) {
    IoU(a, b) > t
  }

  /** Some box already kept suppresses box x. */
  predicate NaiveSuppressedBy(boxes: seq<Box>, t: real, keep: seq<nat>, x: nat)
    requires x < |boxes|
  {
    exists k :: k in keep && k < |boxes| && NaiveSuppresses(t, boxes[k], boxes[x])
  }

  /** The keep list of the reference over `order`: a position is kept unless an earlier kept box suppresses it. */
  function NaiveRun(boxes: seq<Box>, order: seq<nat>, t: real): (keep: seq<nat>)
    requires forall i :: 0 <= i < |order| ==> order[i] < |boxes|
    ensures forall k :: k in keep ==> k in order
    ensures forall i :: 0 <= i < |keep| ==> keep[i] < |boxes|
    decreases |order|
  {
    if order == [] then []
    else
      var keep := NaiveRun(boxes, order[..|order| - 1], t);
      var x := order[|order| - 1];
      assert forall k :: k in order[..|order| - 1] ==> k in order;
      if NaiveSuppressedBy(boxes, t, keep, x) then keep else keep + [x]
  }

  lemma NaiveUnfold(boxes: seq<Box>, order: seq<nat>, t: real, i: nat)
    requires i < |order|
    requires forall j :: 0 <= j < |order| ==> order[j] < |boxes|
    ensures NaiveRun(boxes, order[..i + 1], t)
         == (var keep := NaiveRun(boxes, order[..i], t);
             if NaiveSuppressedBy(boxes, t, keep, order[i]) then keep else keep + [order[i]])
  {
    assert order[..i + 1][..i] == order[..i];
  }

  /** One more position: the keep list stays when the mask says suppressed, and grows by that index otherwise. */
  lemma NaiveAdvance(boxes: seq<Box>, order: seq<nat>, t: real, i: nat, keep: seq<nat>, masked: bool)
    requires i < |order|
    requires forall j :: 0 <= j < |order| ==> order[j] < |boxes|
    requires keep == NaiveRun(boxes, order[..i], t)
    requires masked == NaiveSuppressedBy(boxes, t, keep, order[i])
    ensures NaiveRun(boxes, order[..i + 1], t) == if masked then keep else keep + [order[i]]
  {
    NaiveUnfold(boxes, order, t, i);
  }

  /** One more position of the order leaves the keep list as it was or appends that position's index. */
  lemma NaiveStep(boxes: seq<Box>, order: seq<nat>, t: real, i: nat)
    requires i < |order|
    requires forall j :: 0 <= j < |order| ==> order[j] < |boxes|
    ensures var before, after := NaiveRun(boxes, order[..i], t), NaiveRun(boxes, order[..i + 1], t);
            after == before || after == before + [order[i]]
  {
    NaiveUnfold(boxes, order, t, i);
  }

  lemma NaiveSuppressedByAppend(boxes: seq<Box>, t: real, keep: seq<nat>, c: nat, y: nat)
    requires c < |boxes| && y < |boxes|
    ensures NaiveSuppressedBy(boxes, t, keep + [c], y)
        <==> NaiveSuppressedBy(boxes, t, keep, y) || NaiveSuppresses(t, boxes[c], boxes[y])
  {
    if NaiveSuppresses(t, boxes[c], boxes[y]) {
      assert c in keep + [c];
    }
    if NaiveSuppressedBy(boxes, t, keep, y) {
      var k :| k in keep && k < |boxes| && NaiveSuppresses(t, boxes[k], boxes[y]);
      assert k in keep + [c];
    }
  }

  /**
   * After `current` is kept and the later positions are updated, each of
   * them holds whether the longer keep list suppresses it.
   */
  lemma MaskAfterKeep(boxes: seq<Box>, t: real, order: seq<nat>, i: nat, keep: seq<nat>, current: nat,
                      before: seq<bool>, after: seq<bool>)
    requires |before| == |order| && |after| == |order| && current < |boxes|
    requires forall m :: 0 <= m < |order| ==> order[m] < |boxes|
    requires forall m :: i <= m < |order| ==> before[m] == NaiveSuppressedBy(boxes, t, keep, order[m])
    requires forall m :: i <= m < |order| ==>
               after[m] == (before[m] || NaiveSuppresses(t, boxes[current], boxes[order[m]]))
    ensures forall m :: i <= m < |order| ==> after[m] == NaiveSuppressedBy(boxes, t, keep + [current], order[m])
  {
    forall m | i <= m < |order|
      ensures after[m] == NaiveSuppressedBy(boxes, t, keep + [current], order[m])
    {
      NaiveSuppressedByAppend(boxes, t, keep, current, order[m]);
    }
  }

  /**
   * Lines 131-136: every unsuppressed position j from i on is suppressed when
   * its box's IoU with box `current` is above iouT. Entries only go from
   * false to true.
   */
  method SuppressLater(suppressed: array<bool>, boxes: seq<Box>, areas: seq<real>, order: seq<nat>,
                       i: nat, current: nat, iouT: real)
    requires suppressed.Length == |order| && i <= |order| && current < |boxes| && Oriented(boxes)
    requires forall m :: 0 <= m < |order| ==> order[m] < |boxes|
    requires areas == Areas(boxes)
    modifies suppressed
    ensures forall m :: 0 <= m < i ==> suppressed[m] == old(suppressed[m])
    ensures forall m :: i <= m < |order| ==>
              suppressed[m] == (old(suppressed[m]) || NaiveSuppresses(iouT, boxes[current], boxes[order[m]]))
  {
    for j := i to |order|
      invariant forall m :: 0 <= m < i ==> suppressed[m] == old(suppressed[m])
      invariant forall m :: i <= m < j ==>
                  suppressed[m] == (old(suppressed[m]) || NaiveSuppresses(iouT, boxes[current], boxes[order[m]]))
      invariant forall m :: j <= m < |order| ==> suppressed[m] == old(suppressed[m])
    {
      if suppressed[j] {
        continue;
      }
      var inter := Intersection(boxes[current], boxes[order[j]]);
      UnionPositive(boxes[current], boxes[order[j]]);
      var sc := inter / (areas[current] + areas[order[j]] - inter);
      suppressed[j] := sc > iouT;
    }
  }

  /**
   * `naive_nms` (lines 111-138). It does not check orientation; a degenerate
   * box could give a zero union, so the boxes are required to be oriented.
   * `suppressed` only goes from false to true.
   */
  method NaiveNms(boxes: seq<Box>, scores: seq<real>, order: seq<nat>, iouT: real := 0.5, st: real := 0.1)
    returns (keep: seq<nat>)
    requires |boxes| == |scores|
    requires Oriented(boxes)
    requires IsDescendingOrder(scores, order)
    ensures keep == NaiveRun(boxes, order, iouT)
  {
    var areas := Areas(boxes);
    var suppressed := new bool[|scores|](_ => false);
    keep := [];
    for i := 0 to |boxes|
      invariant suppressed.Length == |order| == |boxes|
      invariant keep == NaiveRun(boxes, order[..i], iouT)
      invariant forall m :: i <= m < |order| ==>
                  suppressed[m] == NaiveSuppressedBy(boxes, iouT, keep, order[m])
    {
      NaiveAdvance(boxes, order, iouT, i, keep, suppressed[i]);
      if suppressed[i] {
        continue;
      }
      var current := order[i];
      ghost var before := suppressed[..];
      SuppressLater(suppressed, boxes, areas, order, i, current, iouT);
      MaskAfterKeep(boxes, iouT, order, i, keep, current, before, suppressed[..]);
      keep := keep + [current];
    }
    assert order[..|order|] == order;
  }
}
