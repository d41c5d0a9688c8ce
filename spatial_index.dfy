/**
 * The spatial index the sparse suppressor queries, described by its contract
 * only: a query for a box returns every indexed box whose intersection area
 * with it is positive, each once, paired with that exact area. Any tree that
 * honours the contract can stand behind `query`; Scan is one that does.
 */
module SpatialIndex {
  import opened Geometry

  /** The pair of arrays `boxtree.intersect(box, 0.0)` returns. */
  datatype QueryResult = QueryResult(indices: seq<nat>, areas: seq<real>)

  /** `r` is the exact answer to querying the boxes `tree` with the box `q`. */
  predicate ExactQuery(tree: seq<Box>, q: Box, r: QueryResult) {
    && |r.indices| == |r.areas|
    && (forall k :: 0 <= k < |r.indices| ==>
          r.indices[k] < |tree| && r.areas[k] == Intersection(q, tree[r.indices[k]]))
    && (forall k, l :: 0 <= k < l < |r.indices| ==> r.indices[k] != r.indices[l])
    && (forall j :: 0 <= j < |tree| ==> (j in r.indices <==> Intersection(q, tree[j]) > 0.0))
  }

  /** `query` answers every query box exactly, as an index built over `tree` must. */
  ghost predicate IsExhaustiveIndex(tree: seq<Box>, query: Box -> QueryResult) {
    forall q :: ExactQuery(tree, q, query(q))
  }

  /** The indices j in [from, |tree|) whose box meets `q` with positive area, in increasing order. */
  function ScanFrom(tree: seq<Box>, q: Box, from: nat): (r: QueryResult)
    requires from <= |tree|
    ensures ScanAnswers(tree, q, from, r)
    decreases |tree| - from
  {
    if from == |tree| then QueryResult([], [])
    else
      var rest := ScanFrom(tree, q, from + 1);
      var a := Intersection(q, tree[from]);
      if a > 0.0 then
        ScanPrepend(tree, q, from, rest);
        QueryResult([from] + rest.indices, [a] + rest.areas)
      else
        rest
  }

  /** `r` lists, in increasing order and with their areas, exactly the boxes from `from` on that meet `q`. */
  predicate ScanAnswers(tree: seq<Box>, q: Box, from: nat, r: QueryResult)
    requires from <= |tree|
  {
    && |r.indices| == |r.areas|
    && (forall k :: 0 <= k < |r.indices| ==>
          from <= r.indices[k] < |tree| && r.areas[k] == Intersection(q, tree[r.indices[k]]))
    && (forall k, l :: 0 <= k < l < |r.indices| ==> r.indices[k] < r.indices[l])
    && (forall j :: from <= j < |tree| ==> (j in r.indices <==> Intersection(q, tree[j]) > 0.0))
  }

  lemma ScanPrepend(tree: seq<Box>, q: Box, from: nat, rest: QueryResult)
    requires from < |tree| && ScanAnswers(tree, q, from + 1, rest) && Intersection(q, tree[from]) > 0.0
    ensures ScanAnswers(tree, q, from, QueryResult([from] + rest.indices, [Intersection(q, tree[from])] + rest.areas))
  {
    var r := QueryResult([from] + rest.indices, [Intersection(q, tree[from])] + rest.areas);
    forall k | 0 <= k < |r.indices|
      ensures from <= r.indices[k] < |tree| && r.areas[k] == Intersection(q, tree[r.indices[k]])
    {
      if k > 0 {
        assert r.indices[k] == rest.indices[k - 1] && r.areas[k] == rest.areas[k - 1];
      }
    }
    forall j | from <= j < |tree| ensures j in r.indices <==> Intersection(q, tree[j]) > 0.0 {
      assert j in r.indices <==> j == from || j in rest.indices;
    }
  }

  /** A linear scan over all boxes, a stand-in for the tree. */
  function Scan(tree: seq<Box>, q: Box): (r: QueryResult)
    ensures ExactQuery(tree, q, r)
  {
    ScanFrom(tree, q, 0)
  }

  /** So the exhaustiveness the suppressor requires of its index can be met. */
  lemma ScanIsExhaustive(tree: seq<Box>)
    ensures IsExhaustiveIndex(tree, q => Scan(tree, q))
  {
  }
}
