/**
 * When the filter of line 43 makes `_nms` fail. The filter shortens the boxes
 * (and so the mask) to the m boxes scoring above score_threshold, while the
 * order still walks all n positions. The m high-scoring boxes come first in a
 * descending order, so the walk reaches an index m or more before it can
 * break, whenever some box was dropped. So, once the precheck passes, `_nms`
 * as written fails exactly when some score is at or below score_threshold.
 */
module FilterFault {
  import opened Errors
  import opened Geometry
  import opened Ordering
  import opened SparseNms
  import opened SparseProperties

  /** The naturals below n. */
  function Below(n: nat): (r: set<nat>)
    ensures forall x: nat :: x in r <==> x < n
    ensures |r| == n
  {
    if n == 0 then {}
    else
      var r := Below(n - 1);
      assert n - 1 !in r;
      r + {n - 1}
  }

  /** The entries of a list, as a set. */
  function Elements(s: seq<nat>): set<nat> {
    set x | x in s
  }

  lemma SubsetCard(a: set<nat>, b: set<nat>)
    requires a <= b
    ensures |a| <= |b|
    ensures |a| == |b| ==> a == b
  {
    assert b == a + (b - a);
    assert a * (b - a) == {};
    if |a| == |b| {
      assert |b - a| == 0;
    }
  }

  /** A list of distinct entries has as many elements as entries. */
  lemma {:induction false} DistinctElements(s: seq<nat>)
    requires forall i, j :: 0 <= i < j < |s| ==> s[i] != s[j]
    ensures |Elements(s)| == |s|
    decreases |s|
  {
    if s != [] {
      var n := |s| - 1;
      DistinctElements(s[..n]);
      assert s == s[..n] + [s[n]];
      assert Elements(s) == Elements(s[..n]) + {s[n]};
      assert s[n] !in Elements(s[..n]);
    }
  }

  /** A descending order visits every position. */
  lemma OrderCovers(scores: seq<real>, order: seq<nat>)
    requires IsDescendingOrder(scores, order)
    ensures Elements(order) == Below(|order|)
  {
    DistinctElements(order);
    SubsetCard(Elements(order), Below(|order|));
  }

  /** A score at or below the threshold leaves fewer survivors than boxes. */
  lemma SurvivorsMissing(scores: seq<real>, st: real, i: nat)
    requires i < |scores| && scores[i] <= st
    ensures |Survivors(scores, st)| < |scores|
  {
    var idx := Survivors(scores, st);
    var rest := Below(|scores|) - {i};
    assert Below(|scores|) == rest + {i};
    DistinctElements(idx);
    SubsetCard(Elements(idx), rest);
  }

  /** The survivors, as a set: exactly the positions scoring above the threshold. */
  lemma SurvivorSet(scores: seq<real>, st: real)
    ensures |Elements(Survivors(scores, st))| == |Survivors(scores, st)|
    ensures forall x: nat :: x in Elements(Survivors(scores, st)) <==> x < |scores| && scores[x] > st
  {
    DistinctElements(Survivors(scores, st));
  }

  /** The first position of s holding m or more, or |s| when there is none. */
  function FirstAtLeast(s: seq<nat>, m: nat): (p: nat)
    ensures p <= |s|
    ensures forall q :: 0 <= q < p ==> s[q] < m
    ensures p < |s| ==> s[p] >= m
  {
    if s == [] then 0
    else if s[0] >= m then 0
    else 1 + FirstAtLeast(s[1..], m)
  }

  lemma FirstAtLeastFound(s: seq<nat>, m: nat, j: nat)
    requires j < |s| && s[j] >= m
    ensures FirstAtLeast(s, m) < |s|
  { }

  /**
   * Before the walk first meets an index m or more, where m is the number of
   * survivors, it meets no score below the threshold: such a score would
   * come after every surviving box, which would make m + 1 indices below m.
   */
  lemma NoBreakBefore(scores: seq<real>, st: real, order: seq<nat>, p: nat, q: nat)
    requires IsDescendingOrder(scores, order)
    requires p <= |order| && forall r :: 0 <= r < p ==> order[r] < |Survivors(scores, st)|
    requires q < p
    ensures scores[order[q]] >= st
  {
    if scores[order[q]] < st {
      var m := |Survivors(scores, st)|;
      var high := Elements(Survivors(scores, st));
      SurvivorSet(scores, st);
      OrderCovers(scores, order);
      forall h | h in high ensures h < m {
        assert h in Elements(order);
        var r :| 0 <= r < |order| && order[r] == h;
      }
      SubsetCard(high + {order[q]}, Below(m));
      assert false;
    }
  }

  /** A walk whose visited indices are inside the mask and whose scores reach the threshold is still running. */
  lemma {:induction false} RunsThrough(tree: seq<Box>, scores: seq<real>, order: seq<nat>, st: real, t: real, p: nat)
    requires p <= |order|
    requires forall j :: 0 <= j < |order| ==> order[j] < |scores|
    requires forall q :: 0 <= q < p ==> order[q] < |tree| && scores[order[q]] >= st
    ensures Run(tree, scores, order[..p], st, t).Running?
    decreases p
  {
    if p == 0 {
      assert order[..0] == [];
    } else {
      RunsThrough(tree, scores, order, st, t, p - 1);
      RunUnfold(tree, scores, order, st, t, p - 1);
    }
  }

  /** A walk that stays inside the mask and above the threshold up to position p, and then leaves the mask, fails. */
  lemma FaultAt(tree: seq<Box>, scores: seq<real>, order: seq<nat>, st: real, t: real, p: nat)
    requires p < |order|
    requires forall j :: 0 <= j < |order| ==> order[j] < |scores|
    requires forall q :: 0 <= q < p ==> order[q] < |tree| && scores[order[q]] >= st
    requires order[p] >= |tree|
    ensures Run(tree, scores, order, st, t) == Fault
  {
    RunsThrough(tree, scores, order, st, t, p);
    RunUnfold(tree, scores, order, st, t, p);
    StepFaults(tree, scores, st, t, Run(tree, scores, order[..p], st, t).keep, order[p]);
    RunSettled(tree, scores, order, st, t, p + 1);
  }

  /** `_nms` as written fails reading past the mask whenever the filter drops a box. */
  lemma FilterFaults(boxes: seq<Box>, scores: seq<real>, iouT: real, st: real, order: seq<nat>, i: nat)
    requires IsDescendingOrder(scores, order) && Precheck(boxes, scores).None?
    requires i < |scores| && scores[i] <= st
    ensures SparseSpec(boxes, scores, iouT, st, order) == Err(IndexOutOfRange)
  {
    var tree := Filter(boxes, scores, st);
    var m := |Survivors(scores, st)|;
    SurvivorsMissing(scores, st, i);
    OrderCovers(scores, order);
    var n := |order| - 1;
    assert n in Elements(order);
    var last :| 0 <= last < |order| && order[last] == n;
    var p := FirstAtLeast(order, m);
    FirstAtLeastFound(order, m, last);
    forall q | 0 <= q < p ensures order[q] < |tree| && scores[order[q]] >= st {
      NoBreakBefore(scores, st, order, p, q);
    }
    FaultAt(tree, scores, order, st, iouT, p);
  }

  /**
   * Once the precheck passes, `_nms` as written fails with IndexOutOfRange
   * exactly when some score is at or below score_threshold; otherwise the
   * filter is a no-op and the sweep never reads past the mask.
   */
  lemma FaultsExactlyWhenFiltering(boxes: seq<Box>, scores: seq<real>, iouT: real, st: real, order: seq<nat>)
    requires IsDescendingOrder(scores, order)
    ensures Precheck(boxes, scores).None? ==>
              (SparseSpec(boxes, scores, iouT, st, order) == Err(IndexOutOfRange)
               <==> exists i :: 0 <= i < |scores| && scores[i] <= st)
  {
    if Precheck(boxes, scores).None? {
      if i :| 0 <= i < |scores| && scores[i] <= st {
        FilterFaults(boxes, scores, iouT, st, order, i);
      } else {
        FilterIsNoOpAboveThreshold(boxes, scores, iouT, st, order);
        CorrectedNeverOutOfRange(boxes, scores, iouT, st, order);
      }
    }
  }

  /** The low-scored box visited last: scores [0.9, 0.1], score_threshold 0.5, any two oriented boxes. */
  lemma LowBoxLastFaults(a: Box, b: Box, iouT: real)
    requires IsOriented(a) && IsOriented(b)
    ensures IsDescendingOrder([0.9, 0.1], [0, 1])
    ensures SparseSpec([a, b], [0.9, 0.1], iouT, 0.5, [0, 1]) == Err(IndexOutOfRange)
  {
    PairPasses(a, b, [0.9, 0.1]);
    PairOrder([0.9, 0.1], 0);
    FilterFaults([a, b], [0.9, 0.1], iouT, 0.5, [0, 1], 1);
  }
}
