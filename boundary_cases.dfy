/**
 * The boundary behaviour of the sparse suppressor on small inputs: disjoint
 * boxes, identical boxes, an inverted box and the empty input. Each case is
 * proved for every pair of boxes of its kind and then instantiated on
 * concrete coordinates.
 */
module BoundaryCases {
  import opened Errors
  import opened Geometry
  import opened Ordering
  import opened SparseNms
  import opened SparseProperties

  /** The sweep over two disjoint boxes keeps both. */
  lemma DisjointPairRun(a: Box, b: Box, scores: seq<real>, iouT: real, st: real)
    requires Intersection(a, b) == 0.0
    requires |scores| == 2 && scores[0] >= st && scores[1] >= st
    ensures Run([a, b], scores, [0, 1], st, iouT) == Running([0, 1])
  {
    var tree, order: seq<nat> := [a, b], [0, 1];
    assert order[..1] == [0] && order[..0] == [];
    assert Run(tree, scores, order[..1], st, iouT) == Running([0]);
    assert !Suppresses(iouT, tree[0], tree[1]);
    assert Live(tree, iouT, [0], 1);
    RunUnfold(tree, scores, order, st, iouT, 1);
    assert order[..2] == order;
  }

  /** Two boxes that do not overlap are both kept, the higher score first, whatever the IoU threshold. */
  lemma DisjointPairKept(a: Box, b: Box, scores: seq<real>, iouT: real, st: real)
    requires IsOriented(a) && IsOriented(b) && Intersection(a, b) == 0.0
    requires |scores| == 2 && scores[0] >= scores[1] >= st
    ensures IsDescendingOrder(scores, [0, 1])
    ensures SparseCorrectedSpec([a, b], scores, iouT, st, [0, 1]) == Ok([0, 1])
  {
    DisjointPairRun(a, b, scores, iouT, st);
    PairPasses(a, b, scores);
    PairOrder(scores, 0);
    RunsCorrected([a, b], scores, iouT, st, [0, 1]);
  }

  /** The sweep over a box and its duplicate keeps the first copy only. */
  lemma IdenticalPairRun(b: Box, scores: seq<real>, iouT: real, st: real)
    requires IsOriented(b) && iouT <= 1.0
    requires |scores| == 2 && scores[0] >= st
    ensures Run([b, b], scores, [0, 1], st, iouT) == Running([0])
  {
    var tree, order: seq<nat> := [b, b], [0, 1];
    IoUSelf(b);
    IoUBounds(b, b);
    assert order[..0] == [];
    assert Live(tree, iouT, [], 0);
    RunUnfold(tree, scores, order, st, iouT, 0);
    StepKeeps(tree, scores, st, iouT, [], 0);
    assert Suppresses(iouT, tree[0], tree[1]);
    assert !Live(tree, iouT, [0], 1);
    RunUnfold(tree, scores, order, st, iouT, 1);
    StepSkips(tree, scores, st, iouT, [0], 1);
    assert order[..2] == order;
  }

  /** A box and its duplicate: only the higher-scored copy is kept, for any threshold up to 1. */
  lemma IdenticalPairKeepsFirst(b: Box, scores: seq<real>, iouT: real, st: real)
    requires IsOriented(b) && iouT <= 1.0
    requires |scores| == 2 && scores[0] >= scores[1] && scores[0] >= st
    ensures IsDescendingOrder(scores, [0, 1])
    ensures SparseCorrectedSpec([b, b], scores, iouT, st, [0, 1]) == Ok([0])
  {
    IdenticalPairRun(b, scores, iouT, st);
    PairPasses(b, b, scores);
    PairOrder(scores, 0);
    RunsCorrected([b, b], scores, iouT, st, [0, 1]);
  }

  /** A box and its duplicate scored [0.9, 0.5] with iou_threshold 0.5, filtered or not. */
  lemma IdenticalScoredPair(b: Box)
    requires IsOriented(b)
    ensures IsDescendingOrder([0.9, 0.5], [0, 1])
    ensures SparseCorrectedSpec([b, b], [0.9, 0.5], 0.5, 0.0, [0, 1]) == Ok([0])
    ensures SparseSpec([b, b], [0.9, 0.5], 0.5, 0.0, [0, 1]) == Ok([0])
  {
    IdenticalPairKeepsFirst(b, [0.9, 0.5], 0.5, 0.0);
    FilterIsNoOpAboveThreshold([b, b], [0.9, 0.5], 0.5, 0.0, [0, 1]);
  }

  const Near := Box(0.0, 0.0, 1.0, 1.0)
  const Far := Box(10.0, 10.0, 11.0, 11.0)

  lemma NearFarDisjoint() ensures IsOriented(Near) && IsOriented(Far) && Intersection(Near, Far) == 0.0 { }

  /** Any two disjoint boxes with scores [0.9, 0.8] and iou_threshold 0.1, filtered or not. */
  lemma DisjointScoredPair(a: Box, b: Box)
    requires IsOriented(a) && IsOriented(b) && Intersection(a, b) == 0.0
    ensures SparseCorrectedSpec([a, b], [0.9, 0.8], 0.1, 0.0, [0, 1]) == Ok([0, 1])
    ensures SparseSpec([a, b], [0.9, 0.8], 0.1, 0.0, [0, 1]) == Ok([0, 1])
  {
    DisjointPairKept(a, b, [0.9, 0.8], 0.1, 0.0);
    FilterIsNoOpAboveThreshold([a, b], [0.9, 0.8], 0.1, 0.0, [0, 1]);
  }

  /** Boxes (0,0,1,1) and (10,10,11,11), scores [0.9, 0.8], iou_threshold 0.1: both kept. */
  lemma DisjointBoxesBothKept()
    ensures SparseCorrectedSpec([Near, Far], [0.9, 0.8], 0.1, 0.0, [0, 1]) == Ok([0, 1])
    ensures SparseSpec([Near, Far], [0.9, 0.8], 0.1, 0.0, [0, 1]) == Ok([0, 1])
  {
    NearFarDisjoint();
    DisjointScoredPair(Near, Far);
  }

  /** Two copies of (0,0,2,2), scores [0.9, 0.5], iou_threshold 0.5: only the first is kept. */
  lemma IdenticalBoxesKeepOne()
    ensures IsDescendingOrder([0.9, 0.5], [0, 1])
    ensures SparseCorrectedSpec([Box(0.0, 0.0, 2.0, 2.0), Box(0.0, 0.0, 2.0, 2.0)], [0.9, 0.5], 0.5, 0.0, [0, 1])
            == Ok([0])
    ensures SparseSpec([Box(0.0, 0.0, 2.0, 2.0), Box(0.0, 0.0, 2.0, 2.0)], [0.9, 0.5], 0.5, 0.0, [0, 1])
            == Ok([0])
  {
    IdenticalScoredPair(Box(0.0, 0.0, 2.0, 2.0));
  }

  /** With iou_threshold 0 a kept box clears every box it overlaps with positive area. */
  lemma ZeroThresholdClearsAnyOverlap(a: Box, b: Box)
    requires IsOriented(a) && IsOriented(b)
    ensures Suppresses(0.0, a, b) <==> Intersection(a, b) > 0.0
  {
    IoUBounds(a, b);
  }

  /** With iou_threshold 1 a kept box clears its exact duplicates and nothing else. */
  lemma UnitThresholdClearsDuplicatesOnly(a: Box, b: Box)
    requires IsOriented(a) && IsOriented(b)
    ensures Suppresses(1.0, a, b) <==> a == b
  {
    IoUOneIdentical(a, b);
    if a == b {
      IntersectionBounds(a, b);
      IoUSelf(a);
      assert Intersection(a, a) == Area(a);
    }
  }

  /** The box (2,2,1,1) has x1 < x0: the orientation check fails before any suppression. */
  lemma InvertedBoxRejected()
    ensures SparseSpec([Box(2.0, 2.0, 1.0, 1.0)], [0.9], 0.5, 0.0, [0]) == Err(NotOriented)
    ensures SparseCorrectedSpec([Box(2.0, 2.0, 1.0, 1.0)], [0.9], 0.5, 0.0, [0]) == Err(NotOriented)
  {
    assert !IsOriented(Box(2.0, 2.0, 1.0, 1.0));
  }

  /** No boxes: the minimum over an empty array of deltas raises, so the call fails. */
  lemma EmptyInputRejected(iouT: real, st: real)
    ensures SparseSpec([], [], iouT, st, []) == Err(EmptyReduction)
    ensures SparseCorrectedSpec([], [], iouT, st, []) == Err(EmptyReduction)
  {
  }
}
