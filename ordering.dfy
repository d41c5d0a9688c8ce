/**
 * The visiting order of the suppressors: `np.argsort(scores)[::-1]`, a
 * permutation of the box indices by non-increasing score. The order among
 * equal scores is not fixed by the source, so the suppressors take any order
 * that satisfies IsDescendingOrder; DescendingOrder builds one.
 */
module Ordering {

  /** The entries of `order` are distinct indices of `scores`, by non-increasing score. */
  predicate IsRanked(scores: seq<real>, order: seq<nat>) {
    && (forall i :: 0 <= i < |order| ==> order[i] < |scores|)
    && (forall i, j :: 0 <= i < j < |order| ==> order[i] != order[j])
    && (forall i, j :: 0 <= i < j < |order| ==> scores[order[i]] >= scores[order[j]])
  }

  /**
   * `order` ranks every index of `scores`: |scores| distinct indices below
   * |scores| are all of them, so it is a permutation.
   */
  predicate IsDescendingOrder(scores: seq<real>, order: seq<nat>) {
    |order| == |scores| && IsRanked(scores, order)
  }

  /** Two scores: the position with the higher score first is a descending order. */
  lemma PairOrder(scores: seq<real>, first: nat)
    requires |scores| == 2 && first < 2 && scores[first] >= scores[1 - first]
    ensures IsDescendingOrder(scores, [first, 1 - first])
  { }

  /** Puts x after every entry of `ranked` whose score is at least x's. */
  function Insert(scores: seq<real>, ranked: seq<nat>, x: nat): (r: seq<nat>)
    requires x < |scores| && x !in ranked
    requires IsRanked(scores, ranked)
    ensures |r| == |ranked| + 1
    ensures forall y :: y in r <==> y in ranked || y == x
    ensures IsRanked(scores, r)
  {
    if ranked == [] then [x]
    else
      RankedTail(scores, ranked);
      if scores[ranked[0]] < scores[x] then
        assert forall y :: y in ranked ==> y == ranked[0] || y in ranked[1..];
        RankedCons(scores, x, ranked);
        [x] + ranked
      else
        var rest := Insert(scores, ranked[1..], x);
        RankedCons(scores, ranked[0], rest);
        [ranked[0]] + rest
  }

  /** The tail of a ranked list is ranked, and its head is distinct from and scores at least every later entry. */
  lemma RankedTail(scores: seq<real>, ranked: seq<nat>)
    requires ranked != [] && IsRanked(scores, ranked)
    ensures IsRanked(scores, ranked[1..])
    ensures forall y :: y in ranked[1..] ==> y != ranked[0] && scores[ranked[0]] >= scores[y]
  {
    forall y | y in ranked[1..] ensures y != ranked[0] && scores[ranked[0]] >= scores[y] {
      var i :| 0 <= i < |ranked[1..]| && ranked[1..][i] == y;
      assert ranked[i + 1] == y;
    }
  }

  /** A new head, distinct from and scoring at least every entry of a ranked list, keeps it ranked. */
  lemma RankedCons(scores: seq<real>, h: nat, rest: seq<nat>)
    requires h < |scores| && IsRanked(scores, rest)
    requires forall y :: y in rest ==> y != h && scores[h] >= scores[y]
    ensures IsRanked(scores, [h] + rest)
  {
    var r := [h] + rest;
    forall i, j | 0 <= i < j < |r| ensures r[i] != r[j] && scores[r[i]] >= scores[r[j]] {
      if i == 0 {
        assert r[j] == rest[j - 1] && r[j] in rest;
      } else {
        assert r[i] == rest[i - 1] && r[j] == rest[j - 1];
      }
    }
  }

  /** The indices 0 .. n-1 of `scores`, ranked. */
  function RankFirst(scores: seq<real>, n: nat): (r: seq<nat>)
    requires n <= |scores|
    ensures |r| == n
    ensures forall y: nat :: y in r <==> y < n
    ensures IsRanked(scores, r)
  {
    if n == 0 then [] else Insert(scores, RankFirst(scores, n - 1), n - 1)
  }

  /** One order argsort may produce: among equal scores, lower indices first. */
  function DescendingOrder(scores: seq<real>): (order: seq<nat>)
    ensures IsDescendingOrder(scores, order)
  {
    RankFirst(scores, |scores|)
  }

  /** A ranked list stays ranked when an index scoring no higher than any of its entries joins at the end. */
  lemma RankedAppend(scores: seq<real>, ranked: seq<nat>, x: nat)
    requires IsRanked(scores, ranked) && x < |scores|
    requires forall k :: k in ranked ==> k != x && scores[k] >= scores[x]
    ensures IsRanked(scores, ranked + [x])
  {
    var r := ranked + [x];
    forall i, j | 0 <= i < j < |r| ensures r[i] != r[j] && scores[r[i]] >= scores[r[j]] {
      if j == |ranked| {
        assert r[i] == ranked[i] && ranked[i] in ranked;
      }
    }
  }

  /** A prefix of a ranked list is ranked. */
  lemma RankedPrefix(scores: seq<real>, order: seq<nat>, n: nat)
    requires IsRanked(scores, order) && n <= |order|
    ensures IsRanked(scores, order[..n])
  {
  }

  /**
   * The list bookkeeping of one step of a sweep: keep lists that grow by at
   * most one entry per position of the order.
   */
  lemma GrowthStep(ki: seq<nat>, km: seq<nat>, kj: seq<nat>, s: seq<nat>, s': seq<nat>, x: nat)
    requires ki <= km && forall k :: k in km[|ki|..] ==> k in s
    requires forall k :: k in s ==> k in s'
    requires x in s'
    requires kj == km || kj == km + [x]
    ensures ki <= kj && forall k :: k in kj[|ki|..] ==> k in s'
  {
    if kj != km {
      assert kj[|ki|..] == km[|ki|..] + [x];
    }
  }

  /**
   * A keep list `before` drawn from `pre`, a step that may append x, and a
   * later list whose extra entries come from `post`: when x is in neither,
   * x ends up in the later list exactly when that step appended it.
   */
  lemma KeptIffStep(before: seq<nat>, after: seq<nat>, final: seq<nat>, pre: seq<nat>, post: seq<nat>, x: nat)
    requires forall k :: k in before ==> k in pre
    requires x !in pre && x !in post
    requires after == before || after == before + [x]
    requires after <= final && forall k :: k in final[|after|..] ==> k in post
    ensures x in final <==> after != before
  {
    assert final == after + final[|after|..];
    if after != before {
      assert x == after[|before|];
    }
  }

  /** The index at position p of a ranked order appears nowhere else in it. */
  lemma DistinctPosition(scores: seq<real>, order: seq<nat>, p: nat)
    requires IsRanked(scores, order)
    requires p < |order|
    ensures order[p] !in order[..p] && order[p] !in order[p + 1..]
  {
  }

  /** Growing a slice by one position keeps what it held and adds that position's entry. */
  lemma SliceGrows(order: seq<nat>, i: nat, j: nat)
    requires i < j <= |order|
    ensures forall k :: k in order[i..j - 1] ==> k in order[i..j]
    ensures order[j - 1] in order[i..j]
  {
    assert order[i..j] == order[i..j - 1] + [order[j - 1]];
  }
}
