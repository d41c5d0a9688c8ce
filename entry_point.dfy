/**
 * The public `nms` of lsnms/nms.py (lines 83-108): it converts its arguments
 * to float64 arrays, checks their shapes and the two thresholds, and hands
 * them to the sparse suppressor. Arrays are modelled by their shape and
 * their row-major data.
 */
module EntryPoint {
  import opened Errors
  import opened Geometry
  import opened SpatialIndex
  import opened Ordering
  import opened SparseNms
  import opened SparseProperties

  /** An n-dimensional float64 array: its shape and its data in row-major order. */
  datatype NdArray = NdArray(shape: seq<nat>, data: seq<real>)

  /** The number of elements a shape holds. */
  function Product(shape: seq<nat>): nat {
    if shape == [] then 1 else shape[0] * Product(shape[1..])
  }

  /** The data length agrees with the shape, as for every array numpy builds. */
  predicate WellFormed(a: NdArray) {
    |a.data| == Product(a.shape)
  }

  /** The shape test of line 90: two dimensions, the last of length 4. */
  predicate IsBoxMatrix(a: NdArray) {
    |a.shape| == 2 && a.shape[1] == 4
  }

  /** What line 105 passes on to `_nms`. */
  datatype SuppressCall = SuppressCall(boxes: seq<Box>, scores: seq<real>, iouT: real, st: real)

  /** The rows of an (n, 4) array read as boxes (x0, y0, x1, y1); a trailing partial row is dropped. */
  function Rows(data: seq<real>): (r: seq<Box>)
    ensures |r| == |data| / 4
    ensures forall i :: 0 <= i < |r| ==>
              r[i] == Box(data[4 * i], data[4 * i + 1], data[4 * i + 2], data[4 * i + 3])
    decreases |data|
  {
    if |data| < 4 then []
    else
      var rest := Rows(data[4..]);
      assert forall i :: 0 <= i < |rest| ==>
        rest[i] == Box(data[4 * (i + 1)], data[4 * (i + 1) + 1], data[4 * (i + 1) + 2], data[4 * (i + 1) + 3]);
      [Box(data[0], data[1], data[2], data[3])] + rest
  }

  /**
   * The argument checks of lines 89-103 as written. Line 94 tests
   * `boxes.ndim != 1` where `scores.ndim` was meant, and every array that
   * passed line 90 has two dimensions, so no call gets through: whatever the
   * arguments, the function fails, with BoxesShape exactly when the boxes
   * are not an (n, 4) array and with ScoresShape otherwise.
   */
  function CheckArguments(boxes: NdArray, scores: NdArray, iouT: real, st: real): (r: Result<SuppressCall>)
    ensures r.Err?
    ensures r.error == BoxesShape <==> !IsBoxMatrix(boxes)
    ensures IsBoxMatrix(boxes) ==> r.error == ScoresShape
  {
    if |boxes.shape| != 2 || boxes.shape[|boxes.shape| - 1] != 4 then Err(BoxesShape)
    else Err(ScoresShape)
  }

  /**
   * The argument checks with line 94 testing `scores.ndim`: the call goes
   * through exactly when the boxes are (n, 4), the scores one-dimensional
   * and both thresholds in [0, 1]; otherwise the first failing check, in
   * source order, names the error.
   */
  function CheckArgumentsCorrected(boxes: NdArray, scores: NdArray, iouT: real, st: real): (r: Result<SuppressCall>)
    ensures r.Ok? <==> IsBoxMatrix(boxes) && |scores.shape| == 1 && 0.0 <= iouT <= 1.0 && 0.0 <= st <= 1.0
    ensures r == Err(BoxesShape) <==> !IsBoxMatrix(boxes)
    ensures r == Err(ScoresShape) <==> IsBoxMatrix(boxes) && |scores.shape| != 1
    ensures r == Err(IouThresholdRange) <==>
              IsBoxMatrix(boxes) && |scores.shape| == 1 && (iouT < 0.0 || iouT > 1.0)
    ensures r == Err(ScoreThresholdRange) <==>
              IsBoxMatrix(boxes) && |scores.shape| == 1 && 0.0 <= iouT <= 1.0 && (st < 0.0 || st > 1.0)
    ensures r.Ok? ==> r.value.scores == scores.data && r.value.iouT == iouT && r.value.st == st
    ensures r.Ok? && WellFormed(boxes) ==>
              |r.value.boxes| == boxes.shape[0]
              && forall i :: 0 <= i < |r.value.boxes| ==>
                   4 * i + 3 < |boxes.data| && r.value.boxes[i] == Box(boxes.data[4 * i], boxes.data[4 * i + 1],
                                                                   boxes.data[4 * i + 2], boxes.data[4 * i + 3])
  {
    if |boxes.shape| != 2 || boxes.shape[|boxes.shape| - 1] != 4 then Err(BoxesShape)
    else if |scores.shape| != 1 then Err(ScoresShape)
    else if iouT < 0.0 || iouT > 1.0 then Err(IouThresholdRange)
    else if st < 0.0 || st > 1.0 then Err(ScoreThresholdRange)
    else
      assert Product(boxes.shape) == boxes.shape[0] * 4 by {
        assert boxes.shape[1..] == [4] && [4][1..] == [];
        assert Product([4]) == 4;
      }
      Ok(SuppressCall(Rows(boxes.data), scores.data, iouT, st))
  }

  /**
   * Line 94 as written: one (0,0,1,1) box scored 0.9 is a well-shaped call,
   * yet the checks reject it on the scores; with the scores tested instead,
   * it goes through to `_nms`.
   */
  lemma WellShapedCallRejected()
    ensures CheckArguments(NdArray([1, 4], [0.0, 0.0, 1.0, 1.0]), NdArray([1], [0.9]), 0.5, 0.0)
            == Err(ScoresShape)
    ensures CheckArgumentsCorrected(NdArray([1, 4], [0.0, 0.0, 1.0, 1.0]), NdArray([1], [0.9]), 0.5, 0.0)
            == Ok(SuppressCall([Box(0.0, 0.0, 1.0, 1.0)], [0.9], 0.5, 0.0))
  {
    assert Rows([0.0, 0.0, 1.0, 1.0]) == [Box(0.0, 0.0, 1.0, 1.0)];
  }

  /** An iou_threshold of 1.5 is rejected before any box is looked at. */
  lemma IouThresholdOutOfRange(boxes: NdArray, scores: NdArray, st: real)
    requires IsBoxMatrix(boxes) && |scores.shape| == 1
    ensures CheckArgumentsCorrected(boxes, scores, 1.5, st) == Err(IouThresholdRange)
  {
  }

  /** `nms` with both corrections: checked arguments, then the sweep over all boxes. */
  function NmsSpec(boxes: NdArray, scores: NdArray, iouT: real, st: real, order: seq<nat>): (r: Result<seq<nat>>)
    requires IsDescendingOrder(scores.data, order)
    ensures r.Ok? ==> IsBoxMatrix(boxes) && |scores.shape| == 1 && 0.0 <= iouT <= 1.0 && 0.0 <= st <= 1.0
    ensures r.Ok? ==> forall k :: k in r.value ==> k in order && k < |Rows(boxes.data)|
  {
    match CheckArgumentsCorrected(boxes, scores, iouT, st)
    case Err(e) => Err(e)
    case Ok(c) => SparseCorrectedSpec(c.boxes, c.scores, c.iouT, c.st, order)
  }

  /**
   * `nms` (lines 83-108) with line 94 checking the scores and `_nms` not
   * filtering its boxes; `order` stands for the argsort of line 52 and
   * `query` for the tree of line 46.
   */
  method Nms(boxes: NdArray, scores: NdArray, order: seq<nat>, query: Box -> QueryResult,
             iouT: real := 0.5, st: real := 0.0)
    returns (r: Result<seq<nat>>)
    requires IsDescendingOrder(scores.data, order)
    requires IsExhaustiveIndex(Rows(boxes.data), query)
    ensures r == NmsSpec(boxes, scores, iouT, st, order)
  {
    var checked := CheckArgumentsCorrected(boxes, scores, iouT, st);
    if checked.Err? {
      return Err(checked.error);
    }
    var c := checked.value;
    r := SparseNmsCorrected(c.boxes, c.scores, order, query, c.iouT, c.st);
  }

  /**
   * What a successful `nms` returns: positions of rows of the boxes array,
   * each once, by non-increasing score, each with a score of at least
   * score_threshold, and no two of them overlapping at IoU iou_threshold or
   * more (with a threshold of 0, not overlapping at all).
   */
  lemma NmsResult(boxes: NdArray, scores: NdArray, iouT: real, st: real, order: seq<nat>, keep: seq<nat>)
    requires WellFormed(boxes)
    requires IsDescendingOrder(scores.data, order)
    requires NmsSpec(boxes, scores, iouT, st, order) == Ok(keep)
    ensures IsBoxMatrix(boxes) && 0.0 <= iouT <= 1.0 && 0.0 <= st <= 1.0
    ensures forall k :: k in keep ==> k < boxes.shape[0] && scores.data[k] >= st
    ensures IsRanked(scores.data, keep)
    ensures var rows := Rows(boxes.data);
            forall a, b :: 0 <= a < |keep| && 0 <= b < |keep| && a != b ==>
              && (iouT > 0.0 ==> IoU(rows[keep[a]], rows[keep[b]]) < iouT)
              && (iouT == 0.0 ==> Intersection(rows[keep[a]], rows[keep[b]]) == 0.0)
  {
    var rows, data := Rows(boxes.data), scores.data;
    assert Precheck(rows, data).None?;
    var s := Run(rows, data, order, st, iouT);
    assert s.keep == keep;
    KeptAboveThreshold(rows, data, order, st, iouT);
    KeptRanked(rows, data, order, st, iouT);
    KeptBelowThreshold(rows, data, order, st, iouT);
  }
}
