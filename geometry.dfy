/**
 * Axis-aligned box geometry over exact reals: area, intersection area, union
 * area and intersection-over-union (the helpers `area` and `intersection` the
 * suppressors import, written with the usual formulas).
 */
module Geometry {

  /** One row (x0, y0, x1, y1) of a boxes array. */
  datatype Box = Box(x0: real, y0: real, x1: real, y1: real)

  /** The orientation `_nms` demands: x0 < x1 and y0 < y1. */
  predicate IsOriented(b: Box) {
    b.x0 < b.x1 && b.y0 < b.y1
  }

  predicate Oriented(boxes: seq<Box>) {
    forall b | b in boxes :: IsOriented(b)
  }

  function Min(a: real, b: real): real { if a <= b then a else b }

  function Max(a: real, b: real): real { if a >= b then a else b }

  /** `area` of lsnms.util: width times height, positive for an oriented box. */
  function Area(b: Box): (a: real)
    ensures IsOriented(b) ==> 0.0 < a
  {
    (b.x1 - b.x0) * (b.y1 - b.y0)
  }

  /** Length of the overlap of [lo1, hi1] and [lo2, hi2], zero when they are apart. */
  function Overlap(lo1: real, hi1: real, lo2: real, hi2: real): (r: real)
    ensures 0.0 <= r
    ensures lo1 <= hi1 ==> r <= hi1 - lo1
    ensures lo2 <= hi2 ==> r <= hi2 - lo2
    ensures r > 0.0 <==> lo1 < hi2 && lo2 < hi1 && lo1 < hi1 && lo2 < hi2
  {
    Max(0.0, Min(hi1, hi2) - Max(lo1, lo2))
  }

  /** The table of box areas both suppressors compute once, before their loops. */
  function Areas(boxes: seq<Box>): (r: seq<real>)
    ensures |r| == |boxes|
    ensures Oriented(boxes) ==> forall i :: 0 <= i < |r| ==> r[i] > 0.0
  {
    seq(|boxes|, i requires 0 <= i < |boxes| => Area(boxes[i]))
  }

  /**
   * `intersection` of lsnms.util: the area the two boxes share. It is never
   * negative, and positive exactly when both boxes are proper and they
   * overlap on both axes.
   */
  function Intersection(a: Box, b: Box): (r: real)
    ensures 0.0 <= r
    ensures r > 0.0 <==> && a.x0 < b.x1 && b.x0 < a.x1 && a.x0 < a.x1 && b.x0 < b.x1
                         && a.y0 < b.y1 && b.y0 < a.y1 && a.y0 < a.y1 && b.y0 < b.y1
  {
    var w, h := Overlap(a.x0, a.x1, b.x0, b.x1), Overlap(a.y0, a.y1, b.y0, b.y1);
    assert w * h > 0.0 <==> w > 0.0 && h > 0.0 by {
      if w == 0.0 || h == 0.0 {
        assert w * h == 0.0;
      } else {
        MulPositive(w, h);
      }
    }
    w * h
  }

  function Union(a: Box, b: Box): real {
    Area(a) + Area(b) - Intersection(a, b)
  }

  /**
   * Intersection over union. For oriented boxes the union is positive
   * (UnionPositive); the zero branch only keeps the function total.
   */
  function IoU(a: Box, b: Box): real {
    var u := Union(a, b);
    if u == 0.0 then 0.0 else Intersection(a, b) / u
  }

  lemma MulMonotone(a: real, b: real, c: real, d: real)
    requires 0.0 <= a <= c && 0.0 <= b <= d
    ensures 0.0 <= a * b <= c * d
  {
    assert a * b <= c * b;
    assert c * b <= c * d;
  }

  lemma MulPositive(a: real, b: real)
    requires 0.0 < a && 0.0 < b
    ensures 0.0 < a * b
  {
  }

  lemma IntersectionBelowArea(a: Box, b: Box)
    requires IsOriented(a)
    ensures 0.0 <= Intersection(a, b) <= Area(a)
  {
    var w := Overlap(a.x0, a.x1, b.x0, b.x1);
    var h := Overlap(a.y0, a.y1, b.y0, b.y1);
    MulMonotone(w, h, a.x1 - a.x0, a.y1 - a.y0);
  }

  /** The intersection of two oriented boxes lies between zero and either box's area. */
  lemma IntersectionBounds(a: Box, b: Box)
    requires IsOriented(a) && IsOriented(b)
    ensures 0.0 <= Intersection(a, b)
    ensures Intersection(a, b) <= Area(a) && Intersection(a, b) <= Area(b)
    ensures 0.0 < Area(a) && 0.0 < Area(b)
  {
    IntersectionBelowArea(a, b);
    IntersectionBelowArea(b, a);
    IoUSymmetric(a, b);
  }

  /** The union of two oriented boxes covers each of them, so it is positive. */
  lemma UnionPositive(a: Box, b: Box)
    requires IsOriented(a) && IsOriented(b)
    ensures Union(a, b) >= Area(a) > 0.0
    ensures Union(a, b) >= Area(b) > 0.0
    ensures IoU(a, b) == Intersection(a, b) / Union(a, b)
  {
    IntersectionBounds(a, b);
  }

  /** IoU is a ratio in [0, 1], positive exactly when the boxes overlap. */
  lemma IoUBounds(a: Box, b: Box)
    requires IsOriented(a) && IsOriented(b)
    ensures 0.0 <= IoU(a, b) <= 1.0
    ensures IoU(a, b) > 0.0 <==> Intersection(a, b) > 0.0
  {
    UnionPositive(a, b);
    IntersectionBounds(a, b);
    RatioBounds(Intersection(a, b), Union(a, b));
  }

  lemma RatioBounds(i: real, u: real)
    requires 0.0 <= i <= u && 0.0 < u
    ensures 0.0 <= i / u <= 1.0
    ensures i / u > 0.0 <==> i > 0.0
  {
    var q := i / u;
    assert q * u == i;
    assert q * u <= 1.0 * u;
  }

  /** A box coincides with itself: IoU 1. */
  lemma IoUSelf(a: Box)
    requires IsOriented(a)
    ensures IoU(a, a) == 1.0
  {
    assert Intersection(a, a) == Area(a);
    UnionPositive(a, a);
    assert Union(a, a) == Area(a);
    assert Area(a) / Area(a) == 1.0;
  }

  /** A product of two factors bounded by c and d reaches c * d only when both reach their bounds. */
  lemma MulAtBound(a: real, b: real, c: real, d: real)
    requires 0.0 <= a <= c && 0.0 <= b <= d && 0.0 < c && 0.0 < d
    requires a * b == c * d
    ensures a == c && b == d
  {
    assert a * b <= a * d <= c * d;
    assert (c - a) * d == 0.0;
    assert a == c;
    assert c * b == c * d;
    assert b == (c * b) / c == (c * d) / c == d;
  }

  /** An intersection as large as a box's area means that box lies inside the other. */
  lemma CoveredInside(a: Box, b: Box)
    requires IsOriented(a) && Intersection(a, b) == Area(a)
    ensures b.x0 <= a.x0 && a.x1 <= b.x1 && b.y0 <= a.y0 && a.y1 <= b.y1
  {
    MulAtBound(Overlap(a.x0, a.x1, b.x0, b.x1), Overlap(a.y0, a.y1, b.y0, b.y1),
               a.x1 - a.x0, a.y1 - a.y0);
  }

  /** Only a box and itself reach IoU 1: a threshold of 1 suppresses duplicates alone. */
  lemma IoUOneIdentical(a: Box, b: Box)
    requires IsOriented(a) && IsOriented(b)
    ensures IoU(a, b) >= 1.0 <==> a == b
  {
    if IoU(a, b) >= 1.0 {
      UnionPositive(a, b);
      IntersectionBounds(a, b);
      IoUBounds(a, b);
      var i, u := Intersection(a, b), Union(a, b);
      assert i / u == 1.0;
      assert i == u;
      IoUSymmetric(a, b);
      CoveredInside(a, b);
      CoveredInside(b, a);
    } else if a == b {
      IoUSelf(a);
    }
  }

  lemma OverlapSymmetric(lo1: real, hi1: real, lo2: real, hi2: real)
    ensures Overlap(lo1, hi1, lo2, hi2) == Overlap(lo2, hi2, lo1, hi1)
  { }

  lemma IoUSymmetric(a: Box, b: Box)
    ensures Intersection(a, b) == Intersection(b, a)
    ensures IoU(a, b) == IoU(b, a)
  {
    var w, h := Overlap(a.x0, a.x1, b.x0, b.x1), Overlap(a.y0, a.y1, b.y0, b.y1);
    OverlapSymmetric(a.x0, a.x1, b.x0, b.x1);
    OverlapSymmetric(a.y0, a.y1, b.y0, b.y1);
    assert Intersection(a, b) == w * h == Intersection(b, a);
    assert Union(a, b) == Union(b, a);
  }
}
