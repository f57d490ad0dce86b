/**
 The two recommendation endpoints (db_control/routers/recommend.py):
 `/score` turns answers into a priority list ordered by score, and `/confirm`
 ranks the catalog against a score vector, persists the top products as the
 reception's suggestions and is meant to return their details; see
 ConfirmAsWritten.
 */
module Recommend {

  import opened Wrappers
  import opened Schemas
  import StableSort
  import Scoring
  import Similarity
  import Suggestions
  import Details

  /** A row of the `metrics` table: an axis id and its display name. */
  datatype Metric = Metric(id: int, name: string)

  /** One entry of the `/score` response's `priorities`. */
  datatype Priority = Priority(metricsId: int, name: string, score: real)

  /** `user_scores.items()`: the axes in key order 1..9 with their scores. */
  function ScoreItems(v: map<int, real>): (items: seq<(int, real)>)
    requires Scoring.Axes <= v.Keys
    ensures |items| == 9
    ensures forall i :: 0 <= i < 9 ==> items[i] == (i + 1, v[i + 1])
  {
    seq(9, i requires 0 <= i < 9 => (i + 1, v[i + 1]))
  }

  /** The sort key of `sorted(..., key=lambda x: x[1], reverse=True)`. */
  function NegatedScore(item: (int, real)): real {
    -item.1
  }

  function ItemId(item: (int, real)): int {
    item.0
  }

  /** Row `i` is the last `metrics` row with id `mid`. */
  ghost predicate LastWithId(metrics: seq<Metric>, mid: int, i: int) {
    && 0 <= i < |metrics|
    && metrics[i].id == mid
    && forall j :: i < j < |metrics| ==> metrics[j].id != mid
  }

  /**
   `metric_id_to_name.get(mid)`: the name of the last `metrics` row with that
   id (the dict comprehension keeps the last one), or None.
   */
  function LookupName(metrics: seq<Metric>, mid: int): (name: Option<string>)
    ensures name.None? <==> forall i :: 0 <= i < |metrics| ==> metrics[i].id != mid
    ensures name.Some? ==> exists i :: LastWithId(metrics, mid, i) && name.value == metrics[i].name
    decreases |metrics|
  {
    if |metrics| == 0 then None
    else if metrics[|metrics| - 1].id == mid then
      assert LastWithId(metrics, mid, |metrics| - 1);
      Some(metrics[|metrics| - 1].name)
    else
      var name := LookupName(metrics[..|metrics| - 1], mid);
      LookupNameStep(metrics, mid, name);
      name
  }

  /** When the last row has another id, the lookup in the rows before it stands. */
  lemma LookupNameStep(metrics: seq<Metric>, mid: int, name: Option<string>)
    requires |metrics| > 0 && metrics[|metrics| - 1].id != mid
    requires var pre := metrics[..|metrics| - 1];
      && (name.None? <==> forall i :: 0 <= i < |pre| ==> pre[i].id != mid)
      && (name.Some? ==> exists i :: LastWithId(pre, mid, i) && name.value == pre[i].name)
    ensures name.None? <==> forall i :: 0 <= i < |metrics| ==> metrics[i].id != mid
    ensures name.Some? ==> exists i :: LastWithId(metrics, mid, i) && name.value == metrics[i].name
  {
    var pre := metrics[..|metrics| - 1];
    assert forall i :: 0 <= i < |pre| ==> pre[i] == metrics[i];
    if name.Some? {
      var i :| LastWithId(pre, mid, i) && name.value == pre[i].name;
      assert LastWithId(metrics, mid, i);
    }
  }

  /**
   `metric_id_to_name.get(mid, f"Metric-{mid}")`: the looked-up name, or a
   generated one when the table has no row for the axis.
   */
  function MetricName(metrics: seq<Metric>, mid: int): (name: string)
    ensures (forall i :: 0 <= i < |metrics| ==> metrics[i].id != mid) ==> name == "Metric-" + IntToString(mid)
    ensures (exists i :: 0 <= i < |metrics| && metrics[i].id == mid) ==>
      exists i :: LastWithId(metrics, mid, i) && name == metrics[i].name
  {
    match LookupName(metrics, mid)
    case None => "Metric-" + IntToString(mid)
    case Some(n) => n
  }

  /** The axis ids a priority list mentions. */
  function IdsOf(priorities: seq<Priority>): set<int> {
    set i | 0 <= i < |priorities| :: priorities[i].metricsId
  }

  /**
   What `/score` promises of its priority list for the score vector `v`:
   every axis exactly once with its score, highest score first, equal scores
   in ascending axis id, each named from the `metrics` table.
   */
  ghost predicate RanksAxes(priorities: seq<Priority>, v: map<int, real>, metrics: seq<Metric>) {
    && |priorities| == 9
    && IdsOf(priorities) == Scoring.Axes
    && (forall i, j :: 0 <= i < j < |priorities| ==> priorities[i].metricsId != priorities[j].metricsId)
    && (forall i :: 0 <= i < |priorities| ==> priorities[i].metricsId in v && priorities[i].score == v[priorities[i].metricsId])
    && (forall i :: 0 <= i < |priorities| ==> priorities[i].name == MetricName(metrics, priorities[i].metricsId))
    && (forall i, j :: 0 <= i < j < |priorities| ==> priorities[i].score >= priorities[j].score)
    && (forall i, j :: 0 <= i < j < |priorities| && priorities[i].score == priorities[j].score ==>
          priorities[i].metricsId < priorities[j].metricsId)
  }

  /** `/score`: the priority list of the answers' score vector. */
  function RecommendScore(answers: seq<Answer>, metrics: seq<Metric>): (priorities: seq<Priority>)
    ensures RanksAxes(priorities, Scoring.ConvertAnswersToScores(answers, Scoring.BaseScore, Scoring.Step), metrics)
  {
    Prioritize(Scoring.ConvertAnswersToScores(answers, Scoring.BaseScore, Scoring.Step), metrics)
  }

  /** Sorts the axes of `v` by descending score and names each one. */
  function Prioritize(v: map<int, real>, metrics: seq<Metric>): (priorities: seq<Priority>)
    requires Scoring.Axes <= v.Keys
    ensures RanksAxes(priorities, v, metrics)
  {
    var items := ScoreItems(v);
    var sorted := StableSort.SortBy(items, NegatedScore);
    PriorityOrder(v, items, sorted);
    var priorities := Named(sorted, metrics);
    NamedRanksAxes(sorted, v, metrics);
    priorities
  }

  /** Attaches each axis' display name to its `(id, score)` item. */
  function Named(sorted: seq<(int, real)>, metrics: seq<Metric>): (priorities: seq<Priority>)
    ensures |priorities| == |sorted|
    ensures forall i :: 0 <= i < |sorted| ==>
      priorities[i] == Priority(sorted[i].0, MetricName(metrics, sorted[i].0), sorted[i].1)
  {
    seq(|sorted|, i requires 0 <= i < |sorted| => Priority(sorted[i].0, MetricName(metrics, sorted[i].0), sorted[i].1))
  }

  lemma NamedRanksAxes(sorted: seq<(int, real)>, v: map<int, real>, metrics: seq<Metric>)
    requires |sorted| == 9
    requires (set i | 0 <= i < |sorted| :: sorted[i].0) == Scoring.Axes
    requires forall i :: 0 <= i < |sorted| ==> sorted[i].0 in v && sorted[i].1 == v[sorted[i].0]
    requires forall i, j :: 0 <= i < j < |sorted| ==> sorted[i].0 != sorted[j].0
    requires forall i, j :: 0 <= i < j < |sorted| ==> sorted[i].1 >= sorted[j].1
    requires forall i, j :: 0 <= i < j < |sorted| && sorted[i].1 == sorted[j].1 ==> sorted[i].0 < sorted[j].0
    ensures RanksAxes(Named(sorted, metrics), v, metrics)
  {
    var priorities := Named(sorted, metrics);
    assert IdsOf(priorities) == set i | 0 <= i < |sorted| :: sorted[i].0;
  }

  lemma PriorityOrder(v: map<int, real>, items: seq<(int, real)>, sorted: seq<(int, real)>)
    requires Scoring.Axes <= v.Keys
    requires items == ScoreItems(v)
    requires sorted == StableSort.SortBy(items, NegatedScore)
    ensures |sorted| == 9
    ensures (set i | 0 <= i < |sorted| :: sorted[i].0) == Scoring.Axes
    ensures forall i :: 0 <= i < |sorted| ==> sorted[i].0 in v && sorted[i].1 == v[sorted[i].0]
    ensures forall i, j :: 0 <= i < j < |sorted| ==> sorted[i].0 != sorted[j].0
    ensures forall i, j :: 0 <= i < j < |sorted| ==> sorted[i].1 >= sorted[j].1
    ensures forall i, j :: 0 <= i < j < |sorted| && sorted[i].1 == sorted[j].1 ==> sorted[i].0 < sorted[j].0
  {
    StableSort.SortByMembers(items, NegatedScore);
    assert StableSort.RankIncreasing(items, ItemId);
    StableSort.SortByIsStable(items, NegatedScore, ItemId);
    SortedItemsAreAxes(v, items, sorted);
    SortedItemsOrdered(v, sorted);
  }

  /** A rearrangement of `ScoreItems(v)` lists each axis once, with its score. */
  lemma SortedItemsAreAxes(v: map<int, real>, items: seq<(int, real)>, sorted: seq<(int, real)>)
    requires Scoring.Axes <= v.Keys
    requires items == ScoreItems(v)
    requires |sorted| == |items|
    requires forall x :: x in sorted <==> x in items
    ensures |sorted| == 9
    ensures (set i | 0 <= i < |sorted| :: sorted[i].0) == Scoring.Axes
    ensures forall i :: 0 <= i < |sorted| ==> sorted[i].0 in v && sorted[i].1 == v[sorted[i].0]
  {
    forall i | 0 <= i < |sorted| ensures sorted[i].0 in Scoring.Axes && sorted[i].1 == v[sorted[i].0] {
      assert sorted[i] in items;
      var k :| 0 <= k < |items| && items[k] == sorted[i];
    }
    var ids := set i | 0 <= i < |sorted| :: sorted[i].0;
    forall a | a in Scoring.Axes ensures a in ids {
      assert items[a - 1] in sorted;
      var i :| 0 <= i < |sorted| && sorted[i] == items[a - 1];
    }
  }

  /**
   Sorted on the negated score with ties in ascending id: scores never
   increase, and since an id always carries the same score, ids never repeat.
   */
  lemma SortedItemsOrdered(v: map<int, real>, sorted: seq<(int, real)>)
    requires forall i :: 0 <= i < |sorted| ==> sorted[i].0 in v && sorted[i].1 == v[sorted[i].0]
    requires StableSort.Sorted(sorted, NegatedScore)
    requires StableSort.TiesFollowRank(sorted, NegatedScore, ItemId)
    ensures forall i, j :: 0 <= i < j < |sorted| ==> sorted[i].0 != sorted[j].0
    ensures forall i, j :: 0 <= i < j < |sorted| ==> sorted[i].1 >= sorted[j].1
    ensures forall i, j :: 0 <= i < j < |sorted| && sorted[i].1 == sorted[j].1 ==> sorted[i].0 < sorted[j].0
  {
    forall i, j | 0 <= i < j < |sorted| ensures sorted[i].1 >= sorted[j].1 {
      assert NegatedScore(sorted[i]) <= NegatedScore(sorted[j]);
    }
    forall i, j | 0 <= i < j < |sorted| && sorted[i].1 == sorted[j].1 ensures sorted[i].0 < sorted[j].0 {
      assert NegatedScore(sorted[i]) == NegatedScore(sorted[j]);
      assert ItemId(sorted[i]) < ItemId(sorted[j]);
    }
  }

  // ---------------------------------------------------------------------------
  // /confirm
  // ---------------------------------------------------------------------------

  /** The defaults `/confirm` relies on: `top_n=3` and `max_retries=3`. */
  const TopN := 3
  const MaxRetries := 3

  datatype ConfirmResponse = ConfirmResponse(receptionId: int, recommendedProducts: seq<Details.ProductDetail>)

  /** Why `/confirm` fails: the save raised, or the detail call was malformed. */
  datatype ConfirmError = SaveFailed(outcome: Suggestions.SaveOutcome) | TypeError(message: string)

  /**
   `/confirm` as the handler reads: rank, save, then call
   `get_product_details(top_product_ids, db)` with two arguments where the
   function takes three, which raises a `TypeError` after the suggestions were
   already committed. The request can never succeed.
   */
  method ConfirmAsWritten(receptionId: int, scores: map<int, real>, metricRows: seq<MetricRow>,
                          table: seq<Suggestions.SuggestionRow>, failures: seq<Suggestions.AttemptError>)
    returns (response: Result<ConfirmResponse, ConfirmError>, table': seq<Suggestions.SuggestionRow>)
    ensures response.Err?
    ensures var ids := Similarity.TopProducts(metricRows, scores, TopN);
      var d := Suggestions.LeadingDeadlocks(failures);
      d == |failures| && d < MaxRetries ==>
        response.error.TypeError? && table' == Suggestions.Replace(table, receptionId, ids)
  ensures var d := Suggestions.LeadingDeadlocks(failures);
      !(d == |failures| && d < MaxRetries) ==>
        && table' == table
        && response.error == SaveFailed(
             if MaxRetries <= d then Suggestions.DeadlockUnresolved(MaxRetries) else Suggestions.Raised(failures[d]))
  {
    var ids := Similarity.TopProducts(metricRows, scores, TopN);
    var outcome, attempts;
    outcome, table', attempts := Suggestions.SaveSuggestions(table, receptionId, ids, failures, MaxRetries);
    if !outcome.Saved? {
      response := Err(SaveFailed(outcome));
    } else {
      response := Err(TypeError("get_product_details() missing 1 required positional argument: 'db'"));
    }
  }

  /**
   `/confirm` with the detail call made as intended: on success the
   reception's suggestions are exactly the top products with ranks 1.. and no
   repeated product, and the response details exactly those products; when the
   save raises, the table is untouched and the error propagates.
   */
  method ConfirmRecommendation(receptionId: int, scores: map<int, real>, metricRows: seq<MetricRow>,
                               table: seq<Suggestions.SuggestionRow>, failures: seq<Suggestions.AttemptError>,
                               products: seq<Details.ProductRow>, sign: string -> Option<string>)
    returns (response: Result<ConfirmResponse, ConfirmError>, table': seq<Suggestions.SuggestionRow>)
    ensures var d := Suggestions.LeadingDeadlocks(failures);
      response.Ok? <==> d == |failures| && d < MaxRetries
    ensures var ids := Similarity.TopProducts(metricRows, scores, TopN);
      response.Ok? ==>
        && Suggestions.RowsOf(table', receptionId) == Suggestions.Ranked(receptionId, ids)
        && (forall other :: other != receptionId ==> Suggestions.RowsOf(table', other) == Suggestions.RowsOf(table, other))
        && (forall i, j :: 0 <= i < j < |ids| ==> ids[i] != ids[j])
        && response.value == ConfirmResponse(receptionId, Details.GetProductDetails(ids, products, metricRows, sign))
    ensures response.Err? ==> table' == table && response.error.SaveFailed? && !response.error.outcome.Saved?
    ensures var d := Suggestions.LeadingDeadlocks(failures);
      response.Err? ==>
        response.error.outcome ==
          (if MaxRetries <= d then Suggestions.DeadlockUnresolved(MaxRetries) else Suggestions.Raised(failures[d]))
  {
    var ids := Similarity.TopProducts(metricRows, scores, TopN);
    var outcome, attempts;
    outcome, table', attempts := Suggestions.SaveSuggestions(table, receptionId, ids, failures, MaxRetries);
    if !outcome.Saved? {
      response := Err(SaveFailed(outcome));
    } else {
      response := Ok(ConfirmResponse(receptionId, Details.GetProductDetails(ids, products, metricRows, sign)));
    }
  }
}
