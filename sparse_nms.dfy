/**
 * `_nms` in lsnms/nms.py: confidence-ordered suppression that asks a spatial
 * index for the boxes overlapping the current one and checks IoU exactly.
 *
 * Run is the reference definition of the sweep over the visiting order, one
 * Step per position; Sweep is the loop with the `to_consider` mask, proved to
 * compute Run for every index that honours the SpatialIndex contract.
 * SparseNms is `_nms` as written: the score filter of line 43 is applied to
 * the boxes only. SparseNmsCorrected sweeps the unfiltered boxes.
 */
module SparseNms {
  import opened Errors
  import opened Geometry
  import opened SpatialIndex
  import opened Ordering

  /**
   * Line 74: a live candidate `b` returned by the index for the current box
   * `a` (their intersection is positive) is cleared when IoU(a, b) >= t.
   */
  predicate Suppresses(t: real, a: Box, b: Box) {
    Intersection(a, b) > 0.0 && IoU(a, b) >= t
  }

  /** Some box already kept clears box x. */
  predicate SuppressedBy(tree: seq<Box>, t: real, keep: seq<nat>, x: nat)
    requires x < |tree|
  {
    exists k :: k in keep && k < |tree| && Suppresses(t, tree[k], tree[x])
  }

  /** The value of `to_consider[x]` once the boxes in `keep` have been processed. */
  predicate Live(tree: seq<Box>, t: real, keep: seq<nat>, x: nat)
    requires x < |tree|
  {
    x !in keep && !SuppressedBy(tree, t, keep, x)
  }

  /** Where the sweep stands: still looping, left by the `break`, or failed reading the mask. */
  datatype SweepState = Running(keep: seq<nat>) | Stopped(keep: seq<nat>) | Fault

  /**
   * One iteration of the loop of lines 55-78 for the position holding index
   * x: a mask read past the end fails, a cleared box is skipped, a live box
   * below the threshold breaks the loop, and any other live box is kept.
   */
  function Step(tree: seq<Box>, scores: seq<real>, st: real, t: real, s: SweepState, x: nat): (r: SweepState)
    requires x < |scores|
    ensures !s.Running? ==> r == s
    ensures s.Running? && x < |tree| ==> !r.Fault?
    ensures !r.Fault? ==> !s.Fault? && (r.keep == s.keep || r.keep == s.keep + [x])
    ensures !r.Fault? && r.keep != s.keep ==>
              r.Running? && x < |tree| && Live(tree, t, s.keep, x) && scores[x] >= st
    ensures s.Running? && r.Stopped? ==> x < |tree| && Live(tree, t, s.keep, x) && scores[x] < st
  {
    match s
    case Running(keep) =>
      if x >= |tree| then Fault
      else if !Live(tree, t, keep, x) then s
      else if scores[x] < st then Stopped(keep)
      else Running(keep + [x])
    case _ => s
  }

  /** A live box at or above the threshold joins the keep list. */
  lemma StepKeeps(tree: seq<Box>, scores: seq<real>, st: real, t: real, keep: seq<nat>, x: nat)
    requires x < |tree| && x < |scores| && Live(tree, t, keep, x) && scores[x] >= st
    ensures Step(tree, scores, st, t, Running(keep), x) == Running(keep + [x])
  { }

  /** A running sweep that visits an index past the mask fails. */
  lemma StepFaults(tree: seq<Box>, scores: seq<real>, st: real, t: real, keep: seq<nat>, x: nat)
    requires |tree| <= x < |scores|
    ensures Step(tree, scores, st, t, Running(keep), x) == Fault
  { }

  /** A cleared box leaves the sweep as it is. */
  lemma StepSkips(tree: seq<Box>, scores: seq<real>, st: real, t: real, keep: seq<nat>, x: nat)
    requires x < |tree| && x < |scores| && !Live(tree, t, keep, x)
    ensures Step(tree, scores, st, t, Running(keep), x) == Running(keep)
  { }

  /** The sweep over the whole of `order`. */
  function Run(tree: seq<Box>, scores: seq<real>, order: seq<nat>, st: real, t: real): (s: SweepState)
    requires forall i :: 0 <= i < |order| ==> order[i] < |scores|
    ensures !s.Fault? ==> forall k :: k in s.keep ==> k < |tree| && k in order
    ensures !s.Fault? ==> forall i :: 0 <= i < |s.keep| ==> s.keep[i] < |tree|
    decreases |order|
  {
    if order == [] then Running([])
    else
      var s := Run(tree, scores, order[..|order| - 1], st, t);
      var x := order[|order| - 1];
      assert forall k :: k in order[..|order| - 1] ==> k in order;
      Step(tree, scores, st, t, s, x)
  }

  /** What the loop returns: `keep`, or the failure of reading past the mask. */
  function Outcome(s: SweepState): Result<seq<nat>> {
    if s.Fault? then Err(IndexOutOfRange) else Ok(s.keep)
  }

  /** `deltas.min()` of lines 38-39: the least width or height over all boxes. */
  function MinDelta(boxes: seq<Box>): (m: real)
    requires boxes != []
    ensures forall b | b in boxes :: m <= b.x1 - b.x0 && m <= b.y1 - b.y0
    ensures exists b | b in boxes :: m == b.x1 - b.x0 || m == b.y1 - b.y0
    ensures m > 0.0 <==> Oriented(boxes)
  {
    var d := Min(boxes[0].x1 - boxes[0].x0, boxes[0].y1 - boxes[0].y0);
    if |boxes| == 1 then d
    else
      var m := MinDelta(boxes[1..]);
      assert forall b | b in boxes :: b == boxes[0] || b in boxes[1..];
      Min(d, m)
  }

  /** Adds one to every index: the positions of `scores[1..]` read as positions of `scores`. */
  function Shift(idx: seq<nat>): seq<nat> {
    seq(|idx|, k requires 0 <= k < |idx| => idx[k] + 1)
  }

  /** The positions whose score is above the threshold: the `True` entries of `scores > score_threshold`. */
  function Survivors(scores: seq<real>, st: real): (idx: seq<nat>)
    ensures IsSurvivorList(scores, st, idx)
    decreases |scores|
  {
    if scores == [] then []
    else
      var rest := Survivors(scores[1..], st);
      SurvivorsStep(scores, st, rest);
      (if scores[0] > st then [0] else []) + Shift(rest)
  }

  /** Increasing positions of `scores`, holding exactly those scoring above st. */
  predicate IsSurvivorList(scores: seq<real>, st: real, idx: seq<nat>) {
    && (forall k :: 0 <= k < |idx| ==> idx[k] < |scores|)
    && (forall k, l :: 0 <= k < l < |idx| ==> idx[k] < idx[l])
    && (forall i :: 0 <= i < |scores| ==> (i in idx <==> scores[i] > st))
  }

  lemma ShiftMember(idx: seq<nat>, i: nat)
    ensures i in Shift(idx) <==> i >= 1 && i - 1 in idx
  {
    var r := Shift(idx);
    if i in r {
      var k :| 0 <= k < |r| && r[k] == i;
      assert idx[k] == i - 1;
    }
    if i >= 1 && i - 1 in idx {
      var k :| 0 <= k < |idx| && idx[k] == i - 1;
      assert r[k] == i;
    }
  }

  /** Survivors of `scores[1..]`, shifted, after position 0 when it survives, are the survivors of `scores`. */
  lemma SurvivorsStep(scores: seq<real>, st: real, rest: seq<nat>)
    requires scores != [] && IsSurvivorList(scores[1..], st, rest)
    ensures IsSurvivorList(scores, st, (if scores[0] > st then [0] else []) + Shift(rest))
  {
    var head: seq<nat> := if scores[0] > st then [0] else [];
    var idx := head + Shift(rest);
    forall i | 0 <= i < |scores| ensures i in idx <==> scores[i] > st {
      ShiftMember(rest, i);
      if i >= 1 {
        assert scores[1..][i - 1] == scores[i];
      }
    }
    forall k, l | 0 <= k < l < |idx| ensures idx[k] < idx[l] {
      if k >= |head| {
        assert idx[k] == rest[k - |head|] + 1 && idx[l] == rest[l - |head|] + 1;
      }
    }
  }

  /**
   * Line 43: the boxes whose score is above the threshold, in their original
   * order. The k-th survivor is the box at the k-th position of Survivors.
   */
  function Filter(boxes: seq<Box>, scores: seq<real>, st: real): (r: seq<Box>)
    requires |boxes| == |scores|
    ensures |r| == |Survivors(scores, st)|
    ensures forall k :: 0 <= k < |r| ==> r[k] == boxes[Survivors(scores, st)[k]]
    ensures (forall i :: 0 <= i < |scores| ==> scores[i] > st) ==> r == boxes
    decreases |boxes|
  {
    if boxes == [] then []
    else
      var rest := Filter(boxes[1..], scores[1..], st);
      assert forall i :: 0 <= i < |scores| - 1 ==> scores[1..][i] == scores[i + 1];
      FilterStep(boxes, scores, st, rest);
      (if scores[0] > st then [boxes[0]] else []) + rest
  }

  /** The filter of the tail, after the first box when it survives, is the filter of the whole. */
  lemma FilterStep(boxes: seq<Box>, scores: seq<real>, st: real, rest: seq<Box>)
    requires |boxes| == |scores| > 0
    requires |rest| == |Survivors(scores[1..], st)|
    requires forall k :: 0 <= k < |rest| ==> rest[k] == boxes[1..][Survivors(scores[1..], st)[k]]
    ensures var r := (if scores[0] > st then [boxes[0]] else []) + rest;
            |r| == |Survivors(scores, st)| && forall k :: 0 <= k < |r| ==> r[k] == boxes[Survivors(scores, st)[k]]
  {
    var tail := Survivors(scores[1..], st);
    assert Survivors(scores, st) == (if scores[0] > st then [0] else []) + Shift(tail);
    PickShifted(boxes, rest, tail, scores[0] > st);
  }

  /** Picking the first box or not, then the boxes the tail positions pick, one position further on. */
  lemma PickShifted(boxes: seq<Box>, rest: seq<Box>, tail: seq<nat>, pick: bool)
    requires |boxes| > 0 && |rest| == |tail|
    requires forall k :: 0 <= k < |tail| ==> tail[k] < |boxes| - 1 && rest[k] == boxes[1..][tail[k]]
    ensures var r, idx := (if pick then [boxes[0]] else []) + rest, (if pick then [0] else []) + Shift(tail);
            |r| == |idx| && forall k :: 0 <= k < |r| ==> idx[k] < |boxes| && r[k] == boxes[idx[k]]
  {
    var head := if pick then [boxes[0]] else [];
    var r, idx := head + rest, (if pick then [0] else []) + Shift(tail);
    forall k | 0 <= k < |r| ensures idx[k] < |boxes| && r[k] == boxes[idx[k]] {
      if k >= |head| {
        assert r[k] == rest[k - |head|] && idx[k] == tail[k - |head|] + 1;
      }
    }
  }

  /** The checks of lines 38-43 that come before any suppression work. */
  function Precheck(boxes: seq<Box>, scores: seq<real>): (e: Option<NmsError>)
    ensures e.None? <==> boxes != [] && Oriented(boxes) && |scores| == |boxes|
  {
    if boxes == [] then Some(EmptyReduction)
    else if !(MinDelta(boxes) > 0.0) then Some(NotOriented)
    else if |scores| != |boxes| then Some(MaskLengthMismatch)
    else None
  }

  /** `_nms` as written: the sweep runs over the score-filtered boxes. */
  function SparseSpec(boxes: seq<Box>, scores: seq<real>, iouT: real, st: real, order: seq<nat>): (r: Result<seq<nat>>)
    requires IsDescendingOrder(scores, order)
    ensures Precheck(boxes, scores).Some? ==> r == Err(Precheck(boxes, scores).value)
    ensures r.Ok? ==> forall k :: k in r.value ==> k in order && k < |Survivors(scores, st)|
  {
    match Precheck(boxes, scores)
    case Some(e) => Err(e)
    case None => Outcome(Run(Filter(boxes, scores, st), scores, order, st, iouT))
  }

  /** `_nms` with line 43 dropped: the sweep runs over all boxes, so indices stay aligned. */
  function SparseCorrectedSpec(boxes: seq<Box>, scores: seq<real>, iouT: real, st: real, order: seq<nat>): (r: Result<seq<nat>>)
    requires IsDescendingOrder(scores, order)
    ensures Precheck(boxes, scores).Some? ==> r == Err(Precheck(boxes, scores).value)
    ensures r.Ok? ==> forall k :: k in r.value ==> k in order && k < |boxes|
  {
    match Precheck(boxes, scores)
    case Some(e) => Err(e)
    case None => Outcome(Run(boxes, scores, order, st, iouT))
  }

  /** Once the precheck passes, the corrected `_nms` is the outcome of the sweep. */
  lemma RunsCorrected(boxes: seq<Box>, scores: seq<real>, iouT: real, st: real, order: seq<nat>)
    requires IsDescendingOrder(scores, order) && Precheck(boxes, scores).None?
    ensures SparseCorrectedSpec(boxes, scores, iouT, st, order) == Outcome(Run(boxes, scores, order, st, iouT))
  { }

  lemma RunUnfold(tree: seq<Box>, scores: seq<real>, order: seq<nat>, st: real, t: real, i: nat)
    requires i < |order|
    requires forall j :: 0 <= j < |order| ==> order[j] < |scores|
    ensures Run(tree, scores, order[..i + 1], st, t)
         == Step(tree, scores, st, t, Run(tree, scores, order[..i], st, t), order[i])
  {
    assert order[..i + 1][..i] == order[..i];
  }

  /** One more position of the order leaves the keep list as it was, appends that position's index, or fails. */
  lemma RunStep(tree: seq<Box>, scores: seq<real>, order: seq<nat>, st: real, t: real, i: nat)
    requires i < |order|
    requires forall j :: 0 <= j < |order| ==> order[j] < |scores|
    ensures var before, after := Run(tree, scores, order[..i], st, t), Run(tree, scores, order[..i + 1], st, t);
            !after.Fault? ==>
              !before.Fault? && (after.keep == before.keep || after.keep == before.keep + [order[i]])
  {
    RunUnfold(tree, scores, order, st, t, i);
  }

  /** Once the sweep has stopped or failed, the rest of the order changes nothing. */
  lemma {:induction false} RunSettled(tree: seq<Box>, scores: seq<real>, order: seq<nat>, st: real, t: real, i: nat)
    requires i <= |order|
    requires forall j :: 0 <= j < |order| ==> order[j] < |scores|
    requires !Run(tree, scores, order[..i], st, t).Running?
    ensures Run(tree, scores, order, st, t) == Run(tree, scores, order[..i], st, t)
    decreases |order| - i
  {
    if i < |order| {
      RunUnfold(tree, scores, order, st, t, i);
      RunSettled(tree, scores, order, st, t, i + 1);
    } else {
      assert order[..i] == order;
    }
  }

  lemma SuppressedByAppend(tree: seq<Box>, t: real, keep: seq<nat>, c: nat, y: nat)
    requires c < |tree| && y < |tree|
    ensures SuppressedBy(tree, t, keep + [c], y) <==> SuppressedBy(tree, t, keep, y) || Suppresses(t, tree[c], tree[y])
  {
    if Suppresses(t, tree[c], tree[y]) {
      assert c in keep + [c];
    }
    if SuppressedBy(tree, t, keep, y) {
      var k :| k in keep && k < |tree| && Suppresses(t, tree[k], tree[y]);
      assert k in keep + [c];
    }
  }

  /** Keeping box c clears from the mask exactly c and the live boxes c suppresses. */
  lemma LiveAfterKeep(tree: seq<Box>, t: real, keep: seq<nat>, c: nat, y: nat)
    requires c < |tree| && y < |tree|
    ensures Live(tree, t, keep + [c], y) <==> Live(tree, t, keep, y) && y != c && !Suppresses(t, tree[c], tree[y])
  {
    SuppressedByAppend(tree, t, keep, c, y);
  }

  /**
   * Lines 69-74: every candidate the index returned for box `current` that is
   * still under consideration is cleared when its IoU with it reaches iouT.
   * Entries only ever go from true to false.
   */
  method ClearOverlapping(toConsider: array<bool>, tree: seq<Box>, areas: seq<real>, current: nat,
                          res: QueryResult, iouT: real)
    requires toConsider.Length == |tree| && current < |tree| && Oriented(tree)
    requires areas == Areas(tree)
    requires ExactQuery(tree, tree[current], res)
    modifies toConsider
    ensures forall y :: 0 <= y < toConsider.Length ==>
              toConsider[y] == (old(toConsider[y]) && !Suppresses(iouT, tree[current], tree[y]))
  {
    var boxA := tree[current];
    for k := 0 to |res.indices|
      invariant forall y :: 0 <= y < toConsider.Length ==>
                  toConsider[y] == (old(toConsider[y]) && !(y in res.indices[..k] && Suppresses(iouT, boxA, tree[y])))
    {
      var q := res.indices[k];
      assert res.indices[..k + 1] == res.indices[..k] + [q];
      if !toConsider[q] {
        continue;
      }
      var inter := res.areas[k];
      UnionPositive(boxA, tree[q]);
      var sc := inter / (areas[current] + areas[q] - inter);
      toConsider[q] := sc < iouT;
    }
    assert res.indices[..|res.indices|] == res.indices;
  }

  /** The loop of lines 54-80 over the boxes `tree` the index was built on. */
  method Sweep(tree: seq<Box>, scores: seq<real>, order: seq<nat>, iouT: real, st: real,
               query: Box -> QueryResult)
    returns (r: Result<seq<nat>>)
    requires Oriented(tree)
    requires forall i :: 0 <= i < |order| ==> order[i] < |scores|
    requires IsExhaustiveIndex(tree, query)
    ensures r == Outcome(Run(tree, scores, order, st, iouT))
  {
    var areas := Areas(tree);
    var toConsider := new bool[|tree|](_ => true);
    var keep: seq<nat> := [];
    for i := 0 to |order|
      invariant Run(tree, scores, order[..i], st, iouT) == Running(keep)
      invariant forall y :: 0 <= y < toConsider.Length ==> toConsider[y] == Live(tree, iouT, keep, y)
    {
      var current := order[i];
      RunUnfold(tree, scores, order, st, iouT, i);
      if current >= toConsider.Length {
        // line 57 reads past the end of the mask
        RunSettled(tree, scores, order, st, iouT, i + 1);
        return Err(IndexOutOfRange);
      }
      if !toConsider[current] {
        continue;
      }
      if scores[current] < st {
        // line 62: the `break`, after which `keep` is returned
        RunSettled(tree, scores, order, st, iouT, i + 1);
        return Ok(keep);
      }
      var res := query(tree[current]);
      ClearOverlapping(toConsider, tree, areas, current, res, iouT);
      forall y | 0 <= y < toConsider.Length
        ensures Live(tree, iouT, keep + [current], y) <==> toConsider[y] && y != current
      {
        LiveAfterKeep(tree, iouT, keep, current, y);
      }
      keep := keep + [current];
      toConsider[current] := false;
    }
    assert order[..|order|] == order;
    r := Ok(keep);
  }

  /** `_nms` (lines 10-80) as written, with `query` standing for the tree of line 46. */
  method SparseNms(boxes: seq<Box>, scores: seq<real>, order: seq<nat>, query: Box -> QueryResult,
                   iouT: real := 0.5, st: real := 0.0)
    returns (r: Result<seq<nat>>)
    requires IsDescendingOrder(scores, order)
    requires |boxes| == |scores| ==> IsExhaustiveIndex(Filter(boxes, scores, st), query)
    ensures r == SparseSpec(boxes, scores, iouT, st, order)
  {
    if |boxes| == 0 {
      return Err(EmptyReduction);
    }
    if !(MinDelta(boxes) > 0.0) {
      return Err(NotOriented);
    }
    if |scores| != |boxes| {
      return Err(MaskLengthMismatch);
    }
    var tree := Filter(boxes, scores, st);
    r := Sweep(tree, scores, order, iouT, st, query);
  }

  /** `_nms` with the filter of line 43 dropped, the index built over all boxes. */
  method SparseNmsCorrected(boxes: seq<Box>, scores: seq<real>, order: seq<nat>, query: Box -> QueryResult,
                            iouT: real := 0.5, st: real := 0.0)
    returns (r: Result<seq<nat>>)
    requires IsDescendingOrder(scores, order)
    requires IsExhaustiveIndex(boxes, query)
    ensures r == SparseCorrectedSpec(boxes, scores, iouT, st, order)
  {
    if |boxes| == 0 {
      return Err(EmptyReduction);
    }
    if !(MinDelta(boxes) > 0.0) {
      return Err(NotOriented);
    }
    if |scores| != |boxes| {
      return Err(MaskLengthMismatch);
    }
    r := Sweep(boxes, scores, order, iouT, st, query);
  }
}
