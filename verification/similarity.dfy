/**
 Similarity ranking (`calculate_similarity`, `get_top_products`): every
 distinct product of the `product_metrics` rows is ranked by its distance to
 the user's score vector, nearest first. The ranking is done on the squared
 Euclidean distance, which is also the distance reported next to each product;
 over exact reals the square root the source applies is strictly monotone on
 non-negative values, so the order is the same. `get_top_products` keeps only
 the ids.
 */
module Similarity {

  import opened Schemas
  import StableSort

  /** Index of the first row of product `pid`, or `|rows|` when it has none. */
  function FirstPos(rows: seq<MetricRow>, pid: int): (p: nat)
    ensures p <= |rows|
    ensures p < |rows| ==> rows[p].productId == pid
    ensures forall j :: 0 <= j < p ==> rows[j].productId != pid
  {
    if |rows| == 0 then 0
    else if rows[0].productId == pid then 0
    else 1 + FirstPos(rows[1..], pid)
  }

  lemma {:induction false} FirstPosExtend(pre: seq<MetricRow>, last: MetricRow, pid: int)
    ensures FirstPos(pre, pid) < |pre| ==> FirstPos(pre + [last], pid) == FirstPos(pre, pid)
    ensures FirstPos(pre, pid) == |pre| && last.productId == pid ==> FirstPos(pre + [last], pid) == |pre|
  {
    if |pre| > 0 && pre[0].productId != pid {
      assert (pre + [last])[1..] == pre[1..] + [last];
      FirstPosExtend(pre[1..], last, pid);
    }
  }

  /**
   `ids` lists the products of `rows` in order of first appearance: each id
   occurs in the rows, every row's product is listed, and the list is in
   strictly increasing first-row position (so no id is repeated).
   */
  ghost predicate FirstAppearanceOrder(rows: seq<MetricRow>, ids: seq<int>) {
    && (forall i :: 0 <= i < |ids| ==> FirstPos(rows, ids[i]) < |rows|)
    && (forall j :: 0 <= j < |rows| ==> rows[j].productId in ids)
    && (forall i, j :: 0 <= i < j < |ids| ==> FirstPos(rows, ids[i]) < FirstPos(rows, ids[j]))
  }

  /** The distinct product ids in order of first appearance: pandas `unique()`. */
  function DistinctIds(rows: seq<MetricRow>): (ids: seq<int>)
    ensures FirstAppearanceOrder(rows, ids)
    decreases |rows|
  {
    if |rows| == 0 then []
    else
      var pre := rows[..|rows| - 1];
      var last := rows[|rows| - 1];
      var ids := DistinctIds(pre);
      assert rows == pre + [last];
      DistinctIdsExtend(pre, last, ids);
      if last.productId in ids then ids else ids + [last.productId]
  }

  lemma DistinctIdsExtend(pre: seq<MetricRow>, last: MetricRow, ids: seq<int>)
    requires FirstAppearanceOrder(pre, ids)
    ensures FirstAppearanceOrder(pre + [last], if last.productId in ids then ids else ids + [last.productId])
  {
    var rows := pre + [last];
    var x := last.productId;
    FirstPosOfListed(pre, last, ids);
    if x in ids {
      forall j | 0 <= j < |rows| ensures rows[j].productId in ids {
        if j < |pre| {
          assert rows[j] == pre[j];
        }
      }
    } else {
      var ids' := ids + [x];
      FirstPosOfNew(pre, last, ids);
      assert forall i :: 0 <= i < |ids| ==> ids'[i] == ids[i];
      assert ids'[|ids|] == x;
      forall j | 0 <= j < |rows| ensures rows[j].productId in ids' {
        if j < |pre| {
          assert rows[j] == pre[j];
        }
      }
      forall i, j | 0 <= i < j < |ids'| ensures FirstPos(rows, ids'[i]) < FirstPos(rows, ids'[j]) {
      }
    }
  }

  lemma FirstPosOfListed(pre: seq<MetricRow>, last: MetricRow, ids: seq<int>)
    requires forall i :: 0 <= i < |ids| ==> FirstPos(pre, ids[i]) < |pre|
    ensures forall i :: 0 <= i < |ids| ==> FirstPos(pre + [last], ids[i]) == FirstPos(pre, ids[i])
  {
    forall i | 0 <= i < |ids| ensures FirstPos(pre + [last], ids[i]) == FirstPos(pre, ids[i]) {
      FirstPosExtend(pre, last, ids[i]);
    }
  }

  lemma FirstPosOfNew(pre: seq<MetricRow>, last: MetricRow, ids: seq<int>)
    requires forall j :: 0 <= j < |pre| ==> pre[j].productId in ids
    requires last.productId !in ids
    ensures FirstPos(pre + [last], last.productId) == |pre|
  {
    var x := last.productId;
    FirstPosExtend(pre, last, x);
  }

  /**
   Real multiplication behind a function name: the solver's nonlinear real
   arithmetic does not reliably prove `x * x > 0.0` inline, so the sign fact
   is stated once, in `ProductOfSameSigns`, about this name.
   */
  function Times(a: real, b: real): real {
    a * b
  }

  lemma ProductOfSameSigns(a: real, b: real)
    requires (a > 0.0 && b > 0.0) || (a < 0.0 && b < 0.0)
    ensures Times(a, b) > 0.0
  {
  }

  /** `x ** 2`: never negative, and zero only at zero. */
  function Square(x: real): (r: real)
    ensures r >= 0.0
    ensures x != 0.0 ==> r > 0.0
  {
    if x != 0.0 then ProductOfSameSigns(x, x); Times(x, x) else Times(x, x)
  }

  /**
   The squared distance of product `pid` to the user vector: the sum over the
   product's rows whose metric is scored by the user of (score - level)^2.
   Metrics the user vector lacks contribute nothing.
   */
  function SquaredDistance(rows: seq<MetricRow>, pid: int, user: map<int, real>): (d: real)
    ensures d >= 0.0
  {
    if |rows| == 0 then 0.0
    else
      var r := rows[0];
      (if r.productId == pid && r.metricId in user then Square(user[r.metricId] - r.level) else 0.0)
        + SquaredDistance(rows[1..], pid, user)
  }

  /** The product's level equals the user's score on every metric both have. */
  ghost predicate AgreesWithUser(rows: seq<MetricRow>, pid: int, user: map<int, real>) {
    forall i :: 0 <= i < |rows| && rows[i].productId == pid && rows[i].metricId in user ==>
      rows[i].level == user[rows[i].metricId]
  }

  /** A product is at distance 0 exactly when it agrees with the user on every shared metric. */
  lemma {:induction false} DistanceZeroIffAgrees(rows: seq<MetricRow>, pid: int, user: map<int, real>)
    ensures SquaredDistance(rows, pid, user) == 0.0 <==> AgreesWithUser(rows, pid, user)
  {
    if |rows| > 0 {
      var r := rows[0];
      DistanceZeroIffAgrees(rows[1..], pid, user);
      if AgreesWithUser(rows[1..], pid, user) && !AgreesWithUser(rows, pid, user) {
        forall i | 1 <= i < |rows| && rows[i].productId == pid && rows[i].metricId in user
          ensures rows[i].level == user[rows[i].metricId]
        {
          assert rows[1..][i - 1] == rows[i];
        }
      }
      if AgreesWithUser(rows, pid, user) {
        forall i | 0 <= i < |rows[1..]| && rows[1..][i].productId == pid && rows[1..][i].metricId in user
          ensures rows[1..][i].level == user[rows[1..][i].metricId]
        {
          assert rows[1..][i] == rows[i + 1];
        }
      }
    }
  }

  /** A product paired with its squared distance to the user vector. */
  datatype Scored = Scored(productId: int, distance: real)

  function DistanceOf(s: Scored): real {
    s.distance
  }

  /** The products in first-appearance order, each with its distance. */
  function Candidates(rows: seq<MetricRow>, user: map<int, real>): (c: seq<Scored>)
    ensures |c| == |DistinctIds(rows)|
    ensures forall i :: 0 <= i < |c| ==> c[i] == Scored(DistinctIds(rows)[i], SquaredDistance(rows, DistinctIds(rows)[i], user))
  {
    var ids := DistinctIds(rows);
    seq(|ids|, i requires 0 <= i < |ids| => Scored(ids[i], SquaredDistance(rows, ids[i], user)))
  }

  /** Ranks every distinct product by distance: a stable sort of the candidates. */
  function CalculateSimilarity(rows: seq<MetricRow>, user: map<int, real>): (r: seq<Scored>)
    ensures |r| == |DistinctIds(rows)|
    ensures forall i :: 0 <= i < |r| ==> r[i].distance == SquaredDistance(rows, r[i].productId, user)
    ensures forall i :: 0 <= i < |r| ==> FirstPos(rows, r[i].productId) < |rows|
    ensures forall j :: 0 <= j < |rows| ==> exists i :: 0 <= i < |r| && r[i].productId == rows[j].productId
    ensures forall i, j :: 0 <= i < j < |r| ==> r[i].productId != r[j].productId
    ensures forall i, j :: 0 <= i < j < |r| ==> r[i].distance <= r[j].distance
    ensures forall i, j :: 0 <= i < j < |r| && r[i].distance == r[j].distance ==>
      FirstPos(rows, r[i].productId) < FirstPos(rows, r[j].productId)
  {
    var c := Candidates(rows, user);
    var r := StableSort.SortBy(c, DistanceOf);
    RankingFacts(rows, user, c, r);
    r
  }

  lemma RankingFacts(rows: seq<MetricRow>, user: map<int, real>, c: seq<Scored>, r: seq<Scored>)
    requires c == Candidates(rows, user)
    requires r == StableSort.SortBy(c, DistanceOf)
    ensures |r| == |DistinctIds(rows)|
    ensures forall i :: 0 <= i < |r| ==> r[i].distance == SquaredDistance(rows, r[i].productId, user)
    ensures forall i :: 0 <= i < |r| ==> FirstPos(rows, r[i].productId) < |rows|
    ensures forall j :: 0 <= j < |rows| ==> exists i :: 0 <= i < |r| && r[i].productId == rows[j].productId
    ensures forall i, j :: 0 <= i < j < |r| ==> r[i].productId != r[j].productId
    ensures forall i, j :: 0 <= i < j < |r| ==> r[i].distance <= r[j].distance
    ensures forall i, j :: 0 <= i < j < |r| && r[i].distance == r[j].distance ==>
      FirstPos(rows, r[i].productId) < FirstPos(rows, r[j].productId)
  {
    var ids := DistinctIds(rows);
    var rank := (s: Scored) => FirstPos(rows, s.productId);
    assert |r| == |multiset(r)| == |multiset(c)| == |c|;
    forall i | 0 <= i < |r| ensures r[i] in c {
      assert r[i] in multiset(r);
    }
    forall j | 0 <= j < |rows| ensures exists i :: 0 <= i < |r| && r[i].productId == rows[j].productId {
      var k :| 0 <= k < |ids| && ids[k] == rows[j].productId;
      assert c[k] in multiset(c);
      assert c[k] in r;
    }
    assert StableSort.RankIncreasing(c, rank);
    StableSort.SortByIsStable(c, DistanceOf, rank);
    assert StableSort.Sorted(r, DistanceOf);
  }

  /** Python's `s[:stop]` length for a list of length `n`: negative stops count from the end. */
  function SliceEnd(n: nat, stop: int): (k: nat)
    ensures k <= n
  {
    if stop >= 0 then (if stop < n then stop else n)
    else if n + stop > 0 then n + stop else 0
  }

  /**
   The ids of the first `topN` ranked products (`similarities[:top_n]`): no id
   twice, and every product left out is at least as far from the user as every
   product picked.
   */
  function TopProducts(rows: seq<MetricRow>, user: map<int, real>, topN: int): (ids: seq<int>)
    ensures topN >= 0 ==> |ids| == if topN < |DistinctIds(rows)| then topN else |DistinctIds(rows)|
    ensures topN < 0 ==> |ids| == if |DistinctIds(rows)| + topN > 0 then |DistinctIds(rows)| + topN else 0
    ensures forall i :: 0 <= i < |ids| ==> ids[i] == CalculateSimilarity(rows, user)[i].productId
    ensures forall i, j :: 0 <= i < j < |ids| ==> ids[i] != ids[j]
    ensures forall i, j :: 0 <= i < |ids| && 0 <= j < |rows| && rows[j].productId !in ids ==>
      SquaredDistance(rows, ids[i], user) <= SquaredDistance(rows, rows[j].productId, user)
  {
    var ranking := CalculateSimilarity(rows, user);
    var ids := LeadingIds(ranking, SliceEnd(|ranking|, topN));
    PrefixIsNearest(rows, user, ranking, ids);
    ids
  }

  /** The product ids of the first `n` ranked entries. */
  function LeadingIds(ranking: seq<Scored>, n: nat): (ids: seq<int>)
    requires n <= |ranking|
    ensures |ids| == n
    ensures forall i :: 0 <= i < n ==> ids[i] == ranking[i].productId
  {
    seq(n, i requires 0 <= i < n => ranking[i].productId)
  }

  lemma PrefixIsNearest(rows: seq<MetricRow>, user: map<int, real>, ranking: seq<Scored>, ids: seq<int>)
    requires ranking == CalculateSimilarity(rows, user)
    requires |ids| <= |ranking|
    requires forall i :: 0 <= i < |ids| ==> ids[i] == ranking[i].productId
    ensures forall i, j :: 0 <= i < |ids| && 0 <= j < |rows| && rows[j].productId !in ids ==>
      SquaredDistance(rows, ids[i], user) <= SquaredDistance(rows, rows[j].productId, user)
  {
    forall i, j | 0 <= i < |ids| && 0 <= j < |rows| && rows[j].productId !in ids
      ensures SquaredDistance(rows, ids[i], user) <= SquaredDistance(rows, rows[j].productId, user)
    {
      var m :| 0 <= m < |ranking| && ranking[m].productId == rows[j].productId;
      assert ranking[i].distance <= ranking[m].distance;
    }
  }
}
