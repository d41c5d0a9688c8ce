# lsnms non-maximum suppression, modelled in Dafny

lsnms prunes object-detection boxes. It takes boxes `(x0, y0, x1, y1)` and
confidence scores, visits the boxes by decreasing score, keeps a box, and
discards every box that overlaps a kept box with intersection-over-union
(IoU) at or above a threshold. The file `lsnms/nms.py` has three parts, and
each one is modelled here:

- `_nms` is the sparse suppressor. It checks box orientation, drops boxes
  scoring at or below `score_threshold`, and builds a spatial index (an
  R-tree). It then walks the boxes by descending score, using a boolean
  `to_consider` mask. For each live box it asks the index for the boxes
  that overlap it, clears every still-live candidate whose IoU with it
  reaches `iou_threshold`, and appends the box to `keep`. The walk breaks at
  the first live box scoring below the threshold.
- `naive_nms` is the quadratic reference. Its `suppressed` mask is indexed
  by position in the order. It clears on IoU strictly above the threshold
  and never reads `score_threshold`.
- `nms` is the public entry. It is meant to check the array shapes and both
  thresholds, then call `_nms`. As written it rejects every call (see
  "## Findings").

Each loop of the source is a Dafny method that works on an `array<bool>`
mask:

- `Sweep` and `NaiveNms`, the outer loops, are proved equal to the
  prefix-recursive specification functions `Run` and `NaiveRun`.
- Their inner loops, `ClearOverlapping` and `SuppressLater`, give each new
  mask entry in terms of the old one.

The properties the code promises are lemmas about those functions.

Two pieces are parameters, because the source only consumes them:

- The argsort of the scores is a parameter `order`. It may be any
  permutation with non-increasing scores (`IsDescendingOrder`), because the
  order among equal scores is not fixed. `DescendingOrder` builds one such
  order.
- The spatial index is a function `query`. It is required to answer every
  box exactly (`IsExhaustiveIndex`): each indexed box with positive
  intersection appears once, paired with its exact intersection area.
  `Scan` is a linear index that meets this contract.

Coordinates, areas and IoU are exact reals. An array is modelled by its
shape and its row-major data.

Where the code and its documented behaviour differ, the model follows the
code. Three cases stand out:

- An empty set of boxes fails (`EmptyReduction`), because the minimum of an
  empty array raises. It does not return an empty list.
- Line 43 filters the boxes but not the scores. The mask is then indexed by
  unfiltered positions. Once the input checks pass, the walk reads past the
  mask's end (`IndexOutOfRange`) exactly when the filter drops a box
  (`FaultsExactlyWhenFiltering`).
- Line 94 makes `nms` reject every call.

Both defects have corrected variants:

- `SparseNmsCorrected` sweeps all boxes. The break at line 62 alone then
  enforces the threshold.
- `CheckArgumentsCorrected` tests the scores at line 94. `EntryPoint.Nms`
  is `nms` with both corrections.

When every score is above `score_threshold`, line 43 filters nothing, and
the as-written and corrected `_nms` agree (`FilterIsNoOpAboveThreshold`).

Files (one module each):
- `errors.dfy`: error kinds and the `Result` and `Option` types.
- `geometry.dfy`: `Box`, area, intersection, union, IoU and their bounds.
- `spatial_index.dfy`: the index contract and `Scan`.
- `ordering.dfy`: the visiting order.
- `sparse_nms.dfy`: the sparse sweep, as written and corrected.
- `sparse_properties.dfy`: lemmas about the sparse sweep.
- `filter_fault.dfy`: when the filter of line 43 makes `_nms` fail.
- `naive_nms.dfy`: the reference suppressor.
- `naive_properties.dfy`: lemmas about the reference suppressor.
- `equivalence.dfy`: how the two suppressors agree and where they diverge.
- `boundary_cases.dfy`: small inputs.
- `entry_point.dfy`: `nms`.

## Model

| member | source | states |
|---|---|---|
| Geometry.Area | lsnms/nms.py:49 | the area of a box, width times height, is positive for an oriented box |
| Geometry.Intersection | lsnms/nms.py:134 | the shared area of two boxes is never negative, and positive exactly when both are proper and they overlap on both axes |
| Geometry.IoU | lsnms/nms.py:73 | intersection over the union of the two areas, as line 73 divides; 0 when the union is 0, which oriented boxes never reach |
| Geometry.Overlap | lsnms/nms.py:134 | the overlap of two intervals is non-negative, at most either width, and positive exactly when both intervals are proper and they overlap |
| Geometry.Areas | lsnms/nms.py:49 | one area per box, every one of them positive when the boxes are oriented |
| Geometry.IntersectionBounds | lsnms/nms.py:72-73 | for oriented boxes the intersection area lies between 0 and each box's area, and both areas are positive |
| Geometry.UnionPositive | lsnms/nms.py:73 | the denominator of line 73 is at least each box's area, so it is positive and IoU is intersection divided by union |
| Geometry.IoUBounds | lsnms/nms.py:73-74 | IoU of oriented boxes lies in [0, 1] and is positive exactly when the intersection is |
| Geometry.IoUSelf | lsnms/nms.py:73 | an oriented box has IoU 1 with itself |
| Geometry.IoUOneIdentical | lsnms/nms.py:73-74 | two oriented boxes reach IoU 1 exactly when they are the same box |
| Geometry.IoUSymmetric | lsnms/nms.py:134-135 | intersection and IoU do not depend on argument order |
| SpatialIndex.ExactQuery | lsnms/nms.py:67 | what one query returns: distinct indices of the indexed boxes, exactly those with positive intersection with the query box, each paired with its intersection area |
| SpatialIndex.IsExhaustiveIndex | lsnms/nms.py:46 | the tree built at line 46 answers every query exactly |
| SpatialIndex.Scan | lsnms/nms.py:67 | a linear scan answers a query exactly: distinct indices, exact areas, and every box with positive intersection listed |
| SpatialIndex.ScanIsExhaustive | lsnms/nms.py:46 | an index meeting the exhaustiveness contract exists for every set of boxes |
| Ordering.DescendingOrder | lsnms/nms.py:52 | builds a permutation of the indices with non-increasing scores |
| Ordering.DistinctPosition | lsnms/nms.py:55 | the index at a position of a ranked order occurs at no other position |
| SparseNms.Suppresses | lsnms/nms.py:69-74 | the rule of line 74: a candidate the index returns (positive intersection) is cleared when its IoU with the current box reaches the threshold |
| SparseNms.Live | lsnms/nms.py:54-78 | the value of `to_consider[x]` after the kept boxes: not kept itself and cleared by none of them |
| SparseNms.Step | lsnms/nms.py:55-78 | a stopped or failed sweep stays as it is; a running one fails only past the mask; a step that does not fail leaves the keep list unchanged or appends x, and it appends only a live box scoring at least the threshold; it stops only at a live box below the threshold |
| SparseNms.Run | lsnms/nms.py:55-78 | unless the sweep faults, every kept index is an index of the indexed boxes and comes from the order |
| SparseNms.RunSettled | lsnms/nms.py:60-62 | once the sweep has stopped or faulted, the rest of the order changes nothing |
| SparseNms.LiveAfterKeep | lsnms/nms.py:69-78 | after box c is kept, a box is live exactly when it was live, it is not c, and c does not suppress it |
| SparseNms.MinDelta | lsnms/nms.py:38-39 | the smallest width or height over the boxes: a lower bound that is attained, and positive exactly when every box is oriented |
| SparseNms.Survivors | lsnms/nms.py:43 | the positions of `scores > score_threshold`: increasing, in range, and holding a position exactly when its score is above the threshold |
| SparseNms.Filter | lsnms/nms.py:43 | the k-th filtered box is the box at the k-th surviving position, there are as many as survivors, and all boxes remain when every score is above the threshold |
| SparseNms.Precheck | lsnms/nms.py:38-43 | no error exactly when the boxes are non-empty and oriented and the score mask has one entry per box |
| SparseNms.SparseSpec | lsnms/nms.py:10-80 | `_nms` as written: a failed precheck is its error; a returned index comes from the order and is below the number of surviving boxes |
| SparseNms.SparseCorrectedSpec | lsnms/nms.py:10-80 | `_nms` without the filter: a failed precheck is its error; a returned index comes from the order and is an index of the boxes |
| SparseNms.ClearOverlapping | lsnms/nms.py:69-74 | each mask entry becomes its old value and not suppressed by the current box; entries only go from true to false |
| SparseNms.Sweep | lsnms/nms.py:54-80 | the loop returns exactly the outcome of `Run`: the keep list, or an out-of-range failure |
| SparseNms.SparseNms | lsnms/nms.py:10-80 | `_nms` as written equals its specification, with the sweep over the score-filtered boxes; the thresholds default to 0.5 and 0.0 as on line 10 |
| SparseNms.SparseNmsCorrected | lsnms/nms.py:10-80 | `_nms` without the filter of line 43 equals its specification over all boxes, with the same defaults |
| SparseProperties.PrefixGrowth | lsnms/nms.py:55-78 | over a longer prefix of the order the keep list only grows at its end, with indices from the added positions |
| SparseProperties.KeptRanked | lsnms/nms.py:52-78 | the keep list holds distinct indices by non-increasing score |
| SparseProperties.KeptPairwise | lsnms/nms.py:67-78 | no kept box suppresses a box kept after it |
| SparseProperties.KeptAboveThreshold | lsnms/nms.py:60-62 | every kept box scores at least score_threshold |
| SparseProperties.KeptBelowThreshold | lsnms/nms.py:67-74 | with an exhaustive index, any two kept boxes have IoU below a positive threshold, and do not overlap when the threshold is 0 or less |
| SparseProperties.NotSuppressedMeansBelow | lsnms/nms.py:73-74 | a pair the rule of line 74 lets stand has IoU below a positive threshold, or no overlap |
| SparseProperties.KeptIff | lsnms/nms.py:55-78 | the index at a position is kept exactly when the sweep reaches it running and finds it live with a score at least the threshold |
| SparseProperties.PositionFate | lsnms/nms.py:55-78 | each position is reached after the break and not kept, or faults, or is cleared by an earlier kept box, or is where the loop breaks |
| SparseProperties.NothingKeptAfterBreak | lsnms/nms.py:60-62 | after the break no position from there on is kept and the sweep ends stopped |
| SparseProperties.MaskOnlyClears | lsnms/nms.py:54-78 | a box live later in the sweep was live earlier: the mask never flips back to true |
| SparseProperties.NoFault | lsnms/nms.py:54-57 | when every visited index is an index of the indexed boxes the mask is never read out of range |
| SparseProperties.RaisingScoreThreshold | lsnms/nms.py:60-62 | a higher score_threshold gives a prefix of the keep list, and the same result when it never breaks |
| SparseProperties.FilterIsNoOpAboveThreshold | lsnms/nms.py:43 | when every score is above the threshold the filter changes nothing and both variants of `_nms` agree |
| SparseProperties.CorrectedNeverOutOfRange | lsnms/nms.py:43-57 | without the filter the sweep never reads past the mask |
| SparseProperties.KeepsAllWhenClear | lsnms/nms.py:55-78 | a ranked order of boxes that all reach the threshold, none clearing a later one, is kept whole |
| SparseProperties.RerunKeepsAll | lsnms/nms.py:55-80 | idempotence: sweeping again over the kept indices, in their order, keeps all of them |
| SparseProperties.FilterMisalignsIndices | lsnms/nms.py:43-57 | for any two oriented boxes, the first scored at or below score_threshold and the second above it, `_nms` as written reads past the one-entry mask |
| SparseProperties.OnlySecondSurvives | lsnms/nms.py:43 | on that input the filter keeps only the second box |
| SparseProperties.OneEntryMaskFaults | lsnms/nms.py:54-57 | a one-entry mask visited at index 1 first is read past its end |
| FilterFault.FaultsExactlyWhenFiltering | lsnms/nms.py:43-62 | once the precheck passes, `_nms` as written fails with IndexOutOfRange exactly when some score is at or below score_threshold, so that line 43 drops a box |
| FilterFault.FilterFaults | lsnms/nms.py:43-62 | a dropped box makes the walk, which reaches an index past the shortened mask before it can break, fail with IndexOutOfRange |
| FilterFault.NoBreakBefore | lsnms/nms.py:52-62 | before the first index past the shortened mask, no visited box scores below the threshold, so line 62 cannot break first |
| FilterFault.FaultAt | lsnms/nms.py:55-62 | a walk that stays inside the mask and at or above the threshold and then visits an index past the mask ends in the fault |
| FilterFault.RunsThrough | lsnms/nms.py:55-62 | while every visited index is inside the mask and scores at least the threshold, the walk neither fails nor breaks |
| FilterFault.OrderCovers | lsnms/nms.py:52 | a descending order visits every position exactly once |
| FilterFault.SurvivorsMissing | lsnms/nms.py:43 | a score at or below the threshold leaves fewer filtered boxes than boxes |
| FilterFault.LowBoxLastFaults | lsnms/nms.py:43-57 | any two oriented boxes scored [0.9, 0.1] at score_threshold 0.5: the second index visited is past the one-entry mask, so `_nms` as written fails |
| SparseProperties.StepBelowThreshold | lsnms/nms.py:57-62 | a visited box below the threshold never joins the keep list |
| SparseProperties.UnfilteredSweep | lsnms/nms.py:55-62 | two boxes scored [0.1, 0.9] with score_threshold 0.5, without the filter: the sweep keeps index 1 and does not fault |
| SparseProperties.UnfilteredKeepsHigherScore | lsnms/nms.py:43-80 | on that input, with oriented boxes, `_nms` without the filter returns [1] |
| NaiveNms.NaiveSuppresses | lsnms/nms.py:134-136 | the rule of line 136: a later position is suppressed when its IoU with the current box is strictly above the threshold |
| NaiveNms.NaiveRun | lsnms/nms.py:124-136 | every kept index comes from the order and is an index of a box |
| NaiveNms.NaiveStep | lsnms/nms.py:124-129 | each position either leaves the keep list unchanged or appends its own index |
| NaiveNms.SuppressLater | lsnms/nms.py:131-136 | positions before i are untouched; from i on an entry becomes true when its IoU with the current box exceeds the threshold, and never goes back to false |
| NaiveNms.NaiveNms | lsnms/nms.py:111-138 | the loop returns exactly `NaiveRun` over the order; the thresholds default to 0.5 and 0.1 as on line 112 |
| NaiveProperties.NaivePrefixGrowth | lsnms/nms.py:124-136 | over a longer prefix the keep list only grows at its end, with indices from the added positions |
| NaiveProperties.NaiveKeptIff | lsnms/nms.py:124-129 | the index at a position is kept exactly when no box kept before it has IoU above the threshold with it |
| NaiveProperties.NaiveKeptPairwise | lsnms/nms.py:131-136 | no kept box has IoU above the threshold with a box kept after it |
| NaiveProperties.NaiveKeptAtMostThreshold | lsnms/nms.py:131-136 | any two kept boxes have IoU at most the threshold |
| NaiveProperties.NaiveKeptRanked | lsnms/nms.py:123-129 | the keep list holds distinct indices by non-increasing score |
| Equivalence.AgreeWithoutTies | lsnms/nms.py:73-74 | with a positive threshold and no two distinct positions at IoU exactly the threshold, the sparse and reference rules decide alike |
| Equivalence.AgreeAtOne | lsnms/nms.py:74 | at threshold 1 the rules decide alike on oriented boxes without duplicates |
| Equivalence.SuppressedByAgree | lsnms/nms.py:131-136 | where the rules agree, a box not in a keep list is suppressed by it under one rule exactly when it is under the other |
| Equivalence.SweepMatchesNaive | lsnms/nms.py:55-78 | where the rules agree and no visited score is below the threshold, the sparse sweep keeps exactly what the reference keeps |
| Equivalence.CorrectedMatchesNaive | lsnms/nms.py:111-138 | under those conditions the corrected `_nms` returns the reference's keep list |
| Equivalence.AgreeAtZero | lsnms/nms.py:74 | at threshold 0 the rules decide alike on every set of oriented boxes |
| Equivalence.MatchesNaiveAtZero | lsnms/nms.py:111-138 | at threshold 0 with no score below the threshold, the corrected `_nms` returns the reference's keep list |
| Equivalence.MatchesNaiveAtOne | lsnms/nms.py:111-138 | at threshold 1, boxes without duplicates and no score below the threshold: the corrected `_nms` returns the reference's keep list |
| Equivalence.TieDiverges | lsnms/nms.py:74 | two overlapping boxes at IoU exactly the threshold: the sparse sweep keeps [0], the reference keeps [0, 1] |
| Equivalence.TieSparse | lsnms/nms.py:55-78 | two boxes ranked first and second where the first meets the rule of line 74 against the second: the sparse sweep keeps only the first |
| Equivalence.TieNaive | lsnms/nms.py:124-136 | two boxes where the first misses the rule of line 136 against the second: the reference keeps both |
| Equivalence.TieAtHalf | lsnms/nms.py:73 | boxes (0,0,2,1) and (0,0,1,1) overlap with IoU exactly 1/2 |
| BoundaryCases.DisjointPairKept | lsnms/nms.py:67-78 | two disjoint oriented boxes are both kept, the higher score first, for any IoU threshold |
| BoundaryCases.IdenticalPairRun | lsnms/nms.py:55-78 | the sweep over a box and its duplicate keeps only the first copy, for any threshold up to 1 |
| BoundaryCases.IdenticalPairKeepsFirst | lsnms/nms.py:67-78 | a box and its duplicate: only the first is kept, for any threshold up to 1 |
| BoundaryCases.IdenticalScoredPair | lsnms/nms.py:43-80 | any oriented box and its duplicate scored [0.9, 0.5] at iou_threshold 0.5 keep [0], filtered or not |
| BoundaryCases.DisjointBoxesBothKept | lsnms/nms.py:55-80 | boxes (0,0,1,1) and (10,10,11,11) scored [0.9, 0.8] with threshold 0.1 give [0, 1], with or without the filter |
| BoundaryCases.IdenticalBoxesKeepOne | lsnms/nms.py:55-80 | two copies of (0,0,2,2) scored [0.9, 0.5] with threshold 0.5 give [0] |
| BoundaryCases.ZeroThresholdClearsAnyOverlap | lsnms/nms.py:73-74 | with threshold 0 a kept box clears exactly the boxes it overlaps with positive area |
| BoundaryCases.UnitThresholdClearsDuplicatesOnly | lsnms/nms.py:73-74 | with threshold 1 a kept box clears exactly its duplicates |
| BoundaryCases.InvertedBoxRejected | lsnms/nms.py:38-40 | the box (2,2,1,1) fails the orientation check |
| BoundaryCases.EmptyInputRejected | lsnms/nms.py:38-39 | no boxes: the minimum over no deltas fails |
| EntryPoint.Rows | lsnms/nms.py:86 | one box per complete row of four values, read as (x0, y0, x1, y1) |
| EntryPoint.CheckArguments | lsnms/nms.py:89-97 | as written every call fails: with BoxesShape exactly when boxes are not (n, 4), otherwise with ScoresShape |
| EntryPoint.CheckArgumentsCorrected | lsnms/nms.py:89-103 | the call goes through exactly when boxes are (n, 4), scores are one-dimensional and both thresholds are in [0, 1]; each of the four errors arises exactly when its check is the first to fail, in source order; the boxes passed on are the array's rows |
| EntryPoint.WellShapedCallRejected | lsnms/nms.py:94-97 | one (0,0,1,1) box scored 0.9 is rejected as written and passed on when corrected |
| EntryPoint.IouThresholdOutOfRange | lsnms/nms.py:100-101 | an iou_threshold of 1.5 is rejected once the shapes pass |
| EntryPoint.NmsSpec | lsnms/nms.py:83-108 | `nms` with both corrections: a success had valid shapes and thresholds and returns indices from the order that are rows of the boxes array |
| EntryPoint.Nms | lsnms/nms.py:83-108 | `nms` with both corrections equals its specification: checked arguments, then `_nms` over all rows; the thresholds default to 0.5 and 0.0 as on line 83 |
| EntryPoint.NmsResult | lsnms/nms.py:83-108 | a successful `nms` returns distinct row positions by non-increasing score, each scoring at least score_threshold, with pairwise IoU below iou_threshold (no overlap at 0) |

## Left out

- numba compilation and `fastmath` are not modelled. They affect speed, floating-point rounding and bounds checking (see the mask read below). Arithmetic is exact real arithmetic, not IEEE doubles.
- The `np.asarray` conversion to float64 (lines 86-87) is not modelled: arrays arrive as reals.
- `BoxTree`, `BallTree` and `KDTree` are not part of this model. The tree built at line 46 is the `query` parameter, constrained only by the exhaustive-query contract. Its leaf size of 32 is not modelled. Line 67's query, with minimum overlap 0.0, is taken to return the boxes whose intersection is positive.
- `lsnms.util.area` and `intersection` are not part of this model. They are defined by the axis-aligned formulas.
- `np.argsort` is not modelled: it is the `order` parameter. That parameter may be any non-increasing permutation, so no tie order and no sort kind is fixed.
- The text of the `ValueError` messages is not modelled, only which check fails. Line 103's message calls score_threshold the "IoU threshold".
- The `np.array(keep)` conversion at line 80 is not modelled: the keep list is a sequence.
- Reading the mask past its end is modelled as an `IndexOutOfRange` error, as numpy's `IndexError`. Under numba that read is unchecked.
- `BoxTree` over an empty set of filtered boxes is not modelled beyond the query contract.
- Idempotence is proved over the same boxes, with the kept indices as the new order (`RerunKeepsAll`). Re-indexing the kept boxes into a new, smaller array is not modelled.
- The complexity and threading remarks of the `_nms` docstring are not modelled.
- NaiveNms: requires oriented boxes and one score per box, which `naive_nms` does not check. With a degenerate box its division can be by zero, and a length mismatch reads past an array. Its unused `score_threshold` is accepted and ignored.
- EntryPoint.Nms: calls the corrected `_nms`. The as-written `nms` never reaches `_nms` (`CheckArguments`), so it has no further behaviour to model.
- SparseNms.SparseNmsCorrected: keeps a box whose score equals score_threshold, as line 61 does. The filter of line 43 would have dropped it.

## Findings

| source | as written | input that shows it | evidently intended | confidence | as-written member | corrected member |
|---|---|---|---|---|---|---|
| lsnms/nms.py:43 | only `boxes` is filtered by `scores > score_threshold`; `scores`, `order` and the mask positions still refer to the unfiltered boxes, so any dropped box makes the walk read past the mask | any input passing the checks of lines 38-40 with a score at or below score_threshold; for two oriented boxes, scores [0.1, 0.9] fail at the first visit (`FilterMisalignsIndices`) and [0.9, 0.1] at the second (`LowBoxLastFaults`), both with score_threshold 0.5 | returned indices refer to the original boxes and never overrun the mask; the sweep covers all boxes and the break of line 62 enforces the threshold | not executed | FilterFault.FaultsExactlyWhenFiltering | SparseProperties.CorrectedNeverOutOfRange |
| lsnms/nms.py:94 | tests `boxes.ndim != 1`, which every array passing line 90 satisfies, so `nms` always raises | one box (0,0,1,1) as a (1, 4) array with scores (0.9,) of shape (1,) | test `scores.ndim != 1` | not executed | EntryPoint.CheckArguments | EntryPoint.CheckArgumentsCorrected |
