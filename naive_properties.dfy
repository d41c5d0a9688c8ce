/**
 * What the reference suppressor guarantees, proved about NaiveRun: a
 * position is kept exactly when no earlier kept box has IoU above the
 * threshold with it, no two kept boxes have IoU above the threshold, and
 * the keep list is ranked by score.
 */
module NaiveProperties {
  import opened Geometry
  import opened Ordering
  import opened NaiveNms

  /** Over two prefixes of the order the shorter keep list starts the longer one. */
  lemma {:induction false} NaivePrefixGrowth(boxes: seq<Box>, order: seq<nat>, t: real, i: nat, j: nat)
    requires i <= j <= |order|
    requires forall k :: 0 <= k < |order| ==> order[k] < |boxes|
    ensures var ki, kj := NaiveRun(boxes, order[..i], t), NaiveRun(boxes, order[..j], t);
            ki <= kj && forall k :: k in kj[|ki|..] ==> k in order[i..j]
    decreases j - i
  {
    if i < j {
      NaivePrefixGrowth(boxes, order, t, i, j - 1);
      NaiveStep(boxes, order, t, j - 1);
      SliceGrows(order, i, j);
      GrowthStep(NaiveRun(boxes, order[..i], t), NaiveRun(boxes, order[..j - 1], t),
                 NaiveRun(boxes, order[..j], t), order[i..j - 1], order[i..j], order[j - 1]);
    } else {
      assert order[..i] == order[..j];
    }
  }

  /**
   * `keep` receives order[p] exactly when position p is not suppressed when
   * the loop reaches it, that is, no box kept before it has IoU above the
   * threshold with it.
   */
  lemma NaiveKeptIff(boxes: seq<Box>, scores: seq<real>, order: seq<nat>, t: real, p: nat)
    requires IsRanked(scores, order)
    requires forall k :: 0 <= k < |order| ==> order[k] < |boxes|
    requires p < |order|
    ensures order[p] in NaiveRun(boxes, order, t) <==> !NaiveSuppressedBy(boxes, t, NaiveRun(boxes, order[..p], t), order[p])
  {
    var before, x := NaiveRun(boxes, order[..p], t), order[p];
    var after, final := NaiveRun(boxes, order[..p + 1], t), NaiveRun(boxes, order, t);
    NaiveUnfold(boxes, order, t, p);
    NaivePrefixGrowth(boxes, order, t, p + 1, |order|);
    assert order[..|order|] == order;
    DistinctPosition(scores, order, p);
    KeptIffStep(before, after, final, order[..p], order[p + 1..], x);
  }

  /** No box of `keep` suppresses a box after it. */
  predicate NaivePairwise(boxes: seq<Box>, t: real, keep: seq<nat>)
    requires forall i :: 0 <= i < |keep| ==> keep[i] < |boxes|
  {
    forall a, b :: 0 <= a < b < |keep| ==> !NaiveSuppresses(t, boxes[keep[a]], boxes[keep[b]])
  }

  lemma NaivePairwiseAppend(boxes: seq<Box>, t: real, keep: seq<nat>, x: nat)
    requires forall i :: 0 <= i < |keep| ==> keep[i] < |boxes|
    requires x < |boxes|
    requires NaivePairwise(boxes, t, keep) && !NaiveSuppressedBy(boxes, t, keep, x)
    ensures NaivePairwise(boxes, t, keep + [x])
  {
    var keep' := keep + [x];
    forall a, b | 0 <= a < b < |keep'| ensures !NaiveSuppresses(t, boxes[keep'[a]], boxes[keep'[b]]) {
      assert keep'[a] == keep[a] && keep[a] in keep;
      if b < |keep| {
        assert keep'[b] == keep[b];
      }
    }
  }

  /** No kept box suppresses a box kept after it. */
  lemma {:induction false} NaiveKeptPairwise(boxes: seq<Box>, order: seq<nat>, t: real)
    requires forall i :: 0 <= i < |order| ==> order[i] < |boxes|
    ensures NaivePairwise(boxes, t, NaiveRun(boxes, order, t))
    decreases |order|
  {
    if order != [] {
      var n := |order| - 1;
      NaiveKeptPairwise(boxes, order[..n], t);
      var pre, x := NaiveRun(boxes, order[..n], t), order[n];
      if !NaiveSuppressedBy(boxes, t, pre, x) {
        NaivePairwiseAppend(boxes, t, pre, x);
      }
    }
  }

  lemma PairwiseAtMostThreshold(boxes: seq<Box>, t: real, keep: seq<nat>)
    requires forall i :: 0 <= i < |keep| ==> keep[i] < |boxes|
    requires NaivePairwise(boxes, t, keep)
    ensures forall a, b :: 0 <= a < |keep| && 0 <= b < |keep| && a != b ==> IoU(boxes[keep[a]], boxes[keep[b]]) <= t
  {
    forall a, b | 0 <= a < |keep| && 0 <= b < |keep| && a != b
      ensures IoU(boxes[keep[a]], boxes[keep[b]]) <= t
    {
      IoUSymmetric(boxes[keep[a]], boxes[keep[b]]);
      if a < b {
        assert !NaiveSuppresses(t, boxes[keep[a]], boxes[keep[b]]);
      } else {
        assert !NaiveSuppresses(t, boxes[keep[b]], boxes[keep[a]]);
      }
    }
  }

  /** Any two distinct kept boxes have IoU at most the threshold. */
  lemma NaiveKeptAtMostThreshold(boxes: seq<Box>, order: seq<nat>, t: real)
    requires forall i :: 0 <= i < |order| ==> order[i] < |boxes|
    ensures var keep := NaiveRun(boxes, order, t);
            forall a, b :: 0 <= a < |keep| && 0 <= b < |keep| && a != b ==> IoU(boxes[keep[a]], boxes[keep[b]]) <= t
  {
    NaiveKeptPairwise(boxes, order, t);
    PairwiseAtMostThreshold(boxes, t, NaiveRun(boxes, order, t));
  }

  /** The keep list holds each index once, in visiting order, by non-increasing score. */
  lemma {:induction false} NaiveKeptRanked(boxes: seq<Box>, scores: seq<real>, order: seq<nat>, t: real)
    requires IsRanked(scores, order)
    requires forall i :: 0 <= i < |order| ==> order[i] < |boxes|
    ensures IsRanked(scores, NaiveRun(boxes, order, t))
    decreases |order|
  {
    if order != [] {
      var n := |order| - 1;
      var pre := order[..n];
      RankedPrefix(scores, order, n);
      NaiveKeptRanked(boxes, scores, pre, t);
      var keep := NaiveRun(boxes, pre, t);
      forall k | k in keep ensures k != order[n] && scores[k] >= scores[order[n]] {
        var i :| 0 <= i < n && pre[i] == k;
        assert order[i] == k;
      }
      RankedAppend(scores, keep, order[n]);
    }
  }
}
