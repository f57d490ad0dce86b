# Recommendation core of the bic-backend service, in Dafny

This project models the product-recommendation core of a FastAPI/SQLAlchemy backend:

- **Scoring.** A questionnaire's answers become a score vector over nine evaluation axes. Every axis starts at 4.5, and fixed answers move fixed axes by 0.25 (`convert_answers_to_scores`).
- **`/score`.** The vector is ranked into a priority list: highest score first, with each axis named from the `metrics` table.
- **`/confirm`.** Each product is ranked by its distance to a given score vector (`calculate_similarity`), and the three nearest are taken (`get_top_products`). They are saved as the reception's suggestions with a deadlock-retry loop (`save_suggestions`), and their details are meant to be returned (`get_product_details`). As written, the handler's detail call has the wrong arity, so it raises instead (see Findings).
- **`save_answers`.** A questionnaire is stored as one `answer_info` row per answer. The value goes into the column that matches the question's answer type.

Modules, one file each:

| file | module | models |
|---|---|---|
| `wrappers.dfy` | `Wrappers` | `Option` and `Result` |
| `schemas.dfy` | `Schemas` | request records, `product_metrics` rows, Python's `==` between an answer value and an int, `str(int)` |
| `stable_sort.dfy` | `StableSort` | Python's stable `sorted` / `list.sort` (with `reverse=True` as a sort on the negated key) |
| `scoring.dfy` | `Scoring` | `convert_answers_to_scores` and the answer-rule table it implements |
| `similarity.dfy` | `Similarity` | `calculate_similarity`, `get_top_products` |
| `suggestions.dfy` | `Suggestions` | the `suggestion` table and `save_suggestions` |
| `details.dfy` | `Details` | `get_product_details` |
| `recommend.dfy` | `Recommend` | the `/score` and `/confirm` handlers |
| `crud.dfy` | `Crud` | `save_answers` |

Modelling choices:

- **Scores are exact reals.** The base and the step are parameters; the handlers use the defaults 4.5 and 0.25.
- **Answer values** are `int | bool | str`. Python's `val == 0` holds for `0` and `False`, and never for a string.
- **Ranking uses the squared distance.** Over exact reals the square root is strictly monotone on non-negative values, so ranking by the squared distance gives the same order, ties included. `CalculateSimilarity` reports the squared distance where `calculate_similarity` returns its square root; `get_top_products` discards the distance and keeps only the ids. Floating-point `np.sqrt` is only monotone, not strictly; see "Left out".
- **The database is passed in as values.** Tables are sequences of rows, and query results are the rows the `WHERE` clause keeps, in table order.
- **Attempt outcomes are an input.** `failures[k]` is the error raised by attempt `k`. An attempt with no entry commits.
- **Image signing is an input.** The Azure blob signer is a function parameter that may fail, in which case it returns `None`.

## Model

| member | source | states |
|---|---|---|
| Schemas.AsInt | db_control/logic/recommend_logic.py:19-38 | under Python `==` an int equals itself, `False` equals 0 and `True` equals 1, and a string equals no int |
| Schemas.NatToString | db_control/crud.py:15 | a natural number renders as decimal digits, without leading zeros, that read back as the number |
| Schemas.IntToString | db_control/routers/recommend.py:31 | `str(n)`: a leading '-' exactly for negatives, then digits; reading the text back gives `n` |
| Scoring.ConvertAnswersToScores | db_control/logic/recommend_logic.py:14-41 | the result has exactly the keys 1..9; with no answers every axis holds the base score |
| Scoring.ApplyAnswer | db_control/logic/recommend_logic.py:17-40 | one answer never adds or removes an axis |
| Scoring.ApplyFollowsRules | db_control/logic/recommend_logic.py:18-40 | the if/elif chain moves each axis by exactly the signed step its rule-table entry gives for that (question, value), and leaves all other axes alone |
| Scoring.ScoreIsBasePlusEffects | db_control/logic/recommend_logic.py:14-41 | every axis ends at base plus the sum of the effects of all answers on it |
| Scoring.TotalEffectPermutation | db_control/logic/recommend_logic.py:16-40 | two answer lists that are permutations of each other have the same total effect on every axis |
| Scoring.AnswerOrderIrrelevant | db_control/logic/recommend_logic.py:14-41 | reordering the answers does not change the score vector |
| Scoring.EffectSigns | db_control/logic/recommend_logic.py:18-40 | with a non-negative step, the only negative effect is question 10 answered 0 on axis 9 |
| Scoring.TotalEffectNonNegative | db_control/logic/recommend_logic.py:16-40 | with a non-negative step, the summed effect of any answers on an axis other than 9 is never negative |
| Scoring.AxesOneToEightNeverBelowBase | db_control/logic/recommend_logic.py:14-41 | with a non-negative step, axes 1 to 8 never end below the base score, whatever the answers |
| Scoring.AnswerIgnoredIffNoRule | db_control/logic/recommend_logic.py:18-40 | for a non-zero step, an answer leaves the vector unchanged exactly when no rule covers it; questions 3, 6 and 12 are always ignored |
| Scoring.WorkedExample | db_control/logic/recommend_logic.py:18-29 | answers (1, 0) and (7, 1) give 4.75 on axes 1 and 9 and 4.5 on every other axis |
| Scoring.Axis9CanFallBelowBase | db_control/logic/recommend_logic.py:35-37 | answering `False` to question 10 puts axis 9 at 4.25, below the base |
| StableSort.SortBy | db_control/logic/recommend_logic.py:53 | the result is a permutation of the input, sorted by the key |
| StableSort.SortByMembers | db_control/logic/recommend_logic.py:53 | sorting keeps the length and exactly the input's elements |
| StableSort.SortByIsStable | db_control/routers/recommend.py:19 | elements with equal keys keep their input order |
| Similarity.DistinctIds | db_control/logic/recommend_logic.py:45 | `unique()` gives each product id once, every id of the rows, in order of first appearance |
| Similarity.SquaredDistance | db_control/logic/recommend_logic.py:46-51 | a product's distance is never negative |
| Similarity.DistanceZeroIffAgrees | db_control/logic/recommend_logic.py:47-51 | the distance is zero exactly when every row of the product on an axis the user scored has the user's score as its level |
| Similarity.CalculateSimilarity | db_control/logic/recommend_logic.py:43-54 | every product occurring in the rows appears exactly once with its distance; distances never decrease; equal distances keep first-appearance order |
| Similarity.SliceEnd | db_control/logic/recommend_logic.py:59 | Python's `[:n]` never selects more than the list holds |
| Similarity.TopProducts | db_control/logic/recommend_logic.py:56-59 | the result has the length Python's slice gives, holds the ranking's leading ids with no id twice, and no product left out is nearer than any product picked |
| Suggestions.Contains | db_control/logic/recommend_logic.py:80 | substring test: true exactly when the text occurs at some position |
| Suggestions.IsDeadlock | db_control/logic/recommend_logic.py:79-80 | an attempt error is retried exactly when it is an `OperationalError` whose text contains "Deadlock found" |
| Suggestions.LeadingDeadlocks | db_control/logic/recommend_logic.py:79-86 | counts the leading run of deadlock errors: all before it deadlock, the one after it does not |
| Suggestions.Replace | db_control/logic/recommend_logic.py:67-76 | after a committed attempt the reception's rows are exactly `(reception, ids[k], k + 1)` in order, and every other reception's rows are unchanged |
| Suggestions.ReplaceLastWins | db_control/logic/recommend_logic.py:67-76 | saving twice equals saving the second list once; nothing is left over from the first |
| Suggestions.SaveSuggestions | db_control/logic/recommend_logic.py:62-89 | saves exactly when every failing attempt before the first commit deadlocked and fewer than `max_retries` did so; re-raises the first non-deadlock error; raises the unresolved-deadlock error once `max_retries` attempts have deadlocked; the table changes only on a save; the attempt count is given for each outcome |
| Details.SasUrl | db_control/logic/recommend_logic.py:101-115 | no URL for a missing or empty blob name; otherwise the signer's result, `None` when signing fails |
| Details.ScoresOf | db_control/logic/recommend_logic.py:148-152 | a product's scores have a key for exactly the metrics it has a row for, each holding the level of the last such row |
| Details.Selected | db_control/logic/recommend_logic.py:118-134 | the query returns each catalog row whose id was requested, as often as the catalog holds it, and no other row |
| Details.SelectedMembers | db_control/logic/recommend_logic.py:130-132 | every returned row is a requested catalog row, and every requested catalog row is returned |
| Details.SelectedCounts | db_control/logic/recommend_logic.py:130-132 | for a requested id, the query returns as many rows as the catalog has with that id; for any other id, none |
| Details.GetProductDetails | db_control/logic/recommend_logic.py:155-171 | one record per selected product row, carrying the row's attributes, its signed image URL and its metric levels |
| Details.DetailsCoverExactlyCatalogued | db_control/logic/recommend_logic.py:130-171 | a requested id has a record exactly when the catalog has a row for it, and has as many records as the catalog has rows for it, so one row gives one record |
| Details.NoMetricsGivesEmptyScores | db_control/logic/recommend_logic.py:169 | a product with no metric rows gets empty scores |
| Recommend.ScoreItems | db_control/routers/recommend.py:19 | `items()` lists the axes 1..9 in order, each with its score |
| Recommend.LookupName | db_control/routers/recommend.py:24 | the id-to-name dict has no entry exactly when no `metrics` row has the id; otherwise it holds the name of the last such row |
| Recommend.MetricName | db_control/routers/recommend.py:24-31 | an axis with no `metrics` row is named `Metric-<id>`; otherwise it takes the name of the last row with that id |
| Recommend.RecommendScore | db_control/routers/recommend.py:16-36 | the priority list holds all nine axes, each once, with its score and name, highest score first, equal scores in ascending axis id |
| Recommend.Prioritize | db_control/routers/recommend.py:19-35 | sorting the score vector's items and naming them gives that ranked, named list |
| Recommend.PriorityOrder | db_control/routers/recommend.py:19 | a stable descending sort of the nine items lists each axis once, scores never increase, and ties stay in key order |
| Recommend.SortedItemsAreAxes | db_control/routers/recommend.py:19 | a rearrangement of the items covers exactly axes 1..9, each with its own score |
| Recommend.SortedItemsOrdered | db_control/routers/recommend.py:19 | in an arrangement sorted by descending score, with ties in ascending id, scores never increase and no axis repeats, since each axis always carries the same score |
| Recommend.NamedRanksAxes | db_control/routers/recommend.py:28-35 | attaching names keeps the order, ids and scores of the sorted items |
| Recommend.ConfirmAsWritten | db_control/routers/recommend.py:40-52 | as written, `/confirm` always fails; when the save commits, it fails with a `TypeError` after the suggestions were already replaced; otherwise the table is untouched and it fails with the error `save_suggestions` raised (the first non-deadlock error, or exhaustion after `max_retries` deadlocks) |
| Recommend.ConfirmRecommendation | db_control/routers/recommend.py:40-52 | with the intended detail call, it succeeds exactly when the save commits; then the reception's suggestions are the top products ranked 1.., no product twice, and the response details them; otherwise the table is untouched and the error is exactly the one `save_suggestions` raised: the first non-deadlock error, or exhaustion after `max_retries` deadlocks |
| Crud.Stored | db_control/crud.py:17-26 | the value goes to the column of the question's type and no other, so the answer can be read back from the row |
| Crud.FirstUnknown | db_control/crud.py:11-15 | finds the first answer whose question does not exist, or none when all exist |
| Crud.SaveAnswers | db_control/crud.py:5-31 | an unknown reception or the first unknown question gives the matching error and saves nothing; otherwise it reports success and appends one row per answer, in order, leaving earlier rows intact |

## Left out

- `round(score, 2)` in `/score` is not modelled. Scores here are exact multiples of 0.25, which the rounding leaves unchanged. Floating-point representation is not modelled.
- `np.sqrt` and floating-point arithmetic: distances are exact squared distances (see above).
- `time.sleep(0.5)` between retries has no observable effect on the result.
- Suggestions.SaveSuggestions: concurrent writers are folded into the `failures` list. The committing attempt is assumed to see the caller's `table`. Another transaction committing between retries, the cause of the deadlocks this loop handles, is not modelled.
- Similarity.CalculateSimilarity: floating-point `np.sqrt` can round two different squared distances to the same value, for example 1.0 and 1.0000000000000002. The source then orders that tie by first appearance, while the model orders them by exact distance. Floating-point rounding is not modelled.
- Generating an Azure SAS token is a foreign call. So are the environment variables it reads and the current time it uses for expiry. The signer is a parameter.
- SQL, pandas loading and the session itself are not modelled. Queries are replaced by their result rows, in table order. SQL fixes no row order, so the records of `get_product_details` are not promised in rank order.
- An empty id list renders `IN ()`, which most SQL dialects reject. The model returns an empty list instead.
- Details.ScoresOf: the source stringifies the metric-id keys (`str(row["metrics_id"])`); the model keys by the integer id.
- A SQL `NULL` image is modelled as `None`. A pandas `NaN` would be truthy, and the source would try to sign it; that is not modelled.
- Pydantic validation and coercion of request bodies are not modelled. Storing a value of the wrong type in a typed column, a database-side error, is not modelled either.
- Crud.SaveAnswers: rows added to the session before an early error return are never committed. The model therefore leaves the table unchanged.
- The `UserInput` and `ConfirmRecommendation` request schemas are not part of this model. They are absent from the schema file, so their fields are taken from the handlers' use of them.
- `priority.py`, `call_sales.py`, the other routers and application start-up are not part of this model.

## Findings

| source | as written | input that shows it | evidently intended | confidence | as-written member | corrected member |
|---|---|---|---|---|---|---|
| db_control/routers/recommend.py:47 | `get_product_details(top_product_ids, db)` passes two arguments to a function declared with three (`product_ids, reception_id, db`, recommend_logic.py:92), so the call raises `TypeError` after `save_suggestions` has already committed | any `/confirm` request whose save succeeds, e.g. an empty `suggestion` table and no failing attempts | `get_product_details(top_product_ids, confirm_input.receptionId, db)`, which returns the details of the saved products | not executed | Recommend.ConfirmAsWritten | Recommend.ConfirmRecommendation |
