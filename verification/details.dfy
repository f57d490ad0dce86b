/**
 Product detail assembly (`get_product_details`): one record per catalog row
 whose id was requested, carrying the product's attributes, a signed image
 URL when one can be made, and the product's level on each metric.

 The two SQL queries are replaced by their inputs: `products` is the product
 table (joined with its category name) in table order, and `metricRows` is
 `product_metrics`. The blob signer is a parameter that may fail (None).
 */
module Details {

  import opened Wrappers
  import opened Schemas

  /** A row of `product` joined with the name of its category (NULL when none). */
  datatype ProductRow = ProductRow(
    id: int, name: string, brand: string, price: real,
    width: real, depth: real, height: real,
    description: string, image: Option<string>, category: Option<string>)

  datatype Dimensions = Dimensions(width: real, depth: real, height: real)

  /** One element of the response's `recommendedProducts`. */
  datatype ProductDetail = ProductDetail(
    id: int, name: string, brand: string, price: real, dimensions: Dimensions,
    description: string, image: Option<string>, category: Option<string>,
    scores: map<int, real>)

  /**
   `generate_sas_url`: no URL for a missing or empty image key; otherwise
   whatever the signer returns, which is None when signing fails.
   */
  function SasUrl(image: Option<string>, sign: string -> Option<string>): (url: Option<string>)
    ensures (image.None? || image == Some("")) ==> url.None?
    ensures image.Some? && image.value != "" ==> url == sign(image.value)
  {
    match image
    case None => None
    case Some(key) => if key == "" then None else sign(key)
  }

  /** Some row of `product_metrics` gives product `pid` a level on `metricId`. */
  ghost predicate HasLevel(metricRows: seq<MetricRow>, pid: int, metricId: int) {
    exists i :: 0 <= i < |metricRows| && metricRows[i].productId == pid && metricRows[i].metricId == metricId
  }

  /** Row `i` is the last row giving product `pid` a level on `metricId`. */
  ghost predicate LastLevelRow(metricRows: seq<MetricRow>, pid: int, metricId: int, i: int) {
    && 0 <= i < |metricRows|
    && metricRows[i].productId == pid && metricRows[i].metricId == metricId
    && forall j :: i < j < |metricRows| ==> !(metricRows[j].productId == pid && metricRows[j].metricId == metricId)
  }

  /**
   The per-product score dictionary (`groupby` plus a dict comprehension): a
   key for every metric the product has a row for, holding the level of the
   last such row. A product with no rows gets the empty map.
   */
  function ScoresOf(metricRows: seq<MetricRow>, pid: int): (scores: map<int, real>)
    ensures forall m :: m in scores <==> HasLevel(metricRows, pid, m)
    ensures forall m :: m in scores ==> exists i :: LastLevelRow(metricRows, pid, m, i) && scores[m] == metricRows[i].level
    decreases |metricRows|
  {
    if |metricRows| == 0 then map[]
    else
      var pre := metricRows[..|metricRows| - 1];
      var last := metricRows[|metricRows| - 1];
      var scores := ScoresOf(pre, pid);
      assert metricRows == pre + [last];
      ScoresOfStep(pre, last, pid, scores);
      if last.productId == pid then scores[last.metricId := last.level] else scores
  }

  lemma ScoresOfStep(pre: seq<MetricRow>, last: MetricRow, pid: int, scores: map<int, real>)
    requires forall m :: m in scores <==> HasLevel(pre, pid, m)
    requires forall m :: m in scores ==> exists i :: LastLevelRow(pre, pid, m, i) && scores[m] == pre[i].level
    ensures var rows := pre + [last];
      var scores' := if last.productId == pid then scores[last.metricId := last.level] else scores;
      && (forall m :: m in scores' <==> HasLevel(rows, pid, m))
      && (forall m :: m in scores' ==> exists i :: LastLevelRow(rows, pid, m, i) && scores'[m] == rows[i].level)
  {
    var rows := pre + [last];
    var scores' := if last.productId == pid then scores[last.metricId := last.level] else scores;
    forall m ensures m in scores' <==> HasLevel(rows, pid, m) {
      if HasLevel(rows, pid, m) {
        var i :| 0 <= i < |rows| && rows[i].productId == pid && rows[i].metricId == m;
        if i < |pre| {
          assert pre[i] == rows[i];
        }
      }
      if m in scores {
        var i :| 0 <= i < |pre| && pre[i].productId == pid && pre[i].metricId == m;
        assert rows[i] == pre[i];
      }
      if last.productId == pid && m == last.metricId {
        assert rows[|pre|] == last;
      }
    }
    forall m | m in scores' ensures exists i :: LastLevelRow(rows, pid, m, i) && scores'[m] == rows[i].level {
      if last.productId == pid && m == last.metricId {
        assert LastLevelRow(rows, pid, m, |pre|);
      } else {
        var i :| LastLevelRow(pre, pid, m, i) && scores[m] == pre[i].level;
        assert rows[i] == pre[i];
        assert LastLevelRow(rows, pid, m, i);
      }
    }
  }

  /**
   `d` is the record for product row `row`: the row's attributes, the signed
   image URL and the product's metric levels.
   */
  ghost predicate Describes(d: ProductDetail, row: ProductRow, metricRows: seq<MetricRow>, sign: string -> Option<string>) {
    && d.id == row.id && d.name == row.name && d.brand == row.brand && d.price == row.price
    && d.dimensions == Dimensions(row.width, row.depth, row.height)
    && d.description == row.description && d.category == row.category
    && d.image == SasUrl(row.image, sign)
    && d.scores == ScoresOf(metricRows, row.id)
  }

  /** One response record for one product row. */
  function Assemble(row: ProductRow, metricRows: seq<MetricRow>, sign: string -> Option<string>): ProductDetail {
    ProductDetail(
      row.id, row.name, row.brand, row.price, Dimensions(row.width, row.depth, row.height),
      row.description, SasUrl(row.image, sign), row.category, ScoresOf(metricRows, row.id))
  }

  /**
   The product rows the `WHERE p.id IN (...)` query returns, in table order:
   each catalog row whose id was requested, as often as the catalog holds it,
   and nothing else.
   */
  function Selected(products: seq<ProductRow>, productIds: seq<int>): (rows: seq<ProductRow>)
    ensures forall r :: multiset(rows)[r] == if r.id in productIds then multiset(products)[r] else 0
  {
    if |products| == 0 then []
    else
      assert products == [products[0]] + products[1..];
      (if products[0].id in productIds then [products[0]] else []) + Selected(products[1..], productIds)
  }

  /** The selected rows are requested catalog rows, and every requested catalog row is selected. */
  lemma SelectedMembers(products: seq<ProductRow>, productIds: seq<int>)
    ensures forall i :: 0 <= i < |Selected(products, productIds)| ==>
      Selected(products, productIds)[i].id in productIds && Selected(products, productIds)[i] in products
    ensures forall j :: 0 <= j < |products| && products[j].id in productIds ==> products[j] in Selected(products, productIds)
  {
    var rows := Selected(products, productIds);
    forall i | 0 <= i < |rows| ensures rows[i].id in productIds && rows[i] in products {
      assert rows[i] in multiset(rows);
    }
    forall j | 0 <= j < |products| && products[j].id in productIds ensures products[j] in rows {
      assert products[j] in multiset(products);
    }
  }

  /** The query returns as many rows with a requested id as the catalog holds. */
  lemma {:induction false} SelectedCounts(products: seq<ProductRow>, productIds: seq<int>, pid: int)
    ensures CountId(Selected(products, productIds), pid) == if pid in productIds then CountId(products, pid) else 0
  {
    if |products| > 0 {
      var rest := Selected(products[1..], productIds);
      SelectedCounts(products[1..], productIds, pid);
      if products[0].id in productIds {
        assert Selected(products, productIds) == [products[0]] + rest;
        assert ([products[0]] + rest)[1..] == rest;
      } else {
        assert Selected(products, productIds) == rest;
      }
    }
  }

  /** How many product rows carry id `pid`. */
  function CountId(rows: seq<ProductRow>, pid: int): nat {
    if |rows| == 0 then 0 else (if rows[0].id == pid then 1 else 0) + CountId(rows[1..], pid)
  }

  /** How many detail records carry id `pid`. */
  function CountDetailId(details: seq<ProductDetail>, pid: int): nat {
    if |details| == 0 then 0 else (if details[0].id == pid then 1 else 0) + CountDetailId(details[1..], pid)
  }

  /** Records with the ids of `rows`, position by position, have the same count per id. */
  lemma {:induction false} CountsFollowRows(details: seq<ProductDetail>, rows: seq<ProductRow>, pid: int)
    requires |details| == |rows|
    requires forall i :: 0 <= i < |rows| ==> details[i].id == rows[i].id
    ensures CountDetailId(details, pid) == CountId(rows, pid)
  {
    if |rows| > 0 {
      CountsFollowRows(details[1..], rows[1..], pid);
    }
  }

  /**
   `get_product_details` without its SQL: one record per selected product row,
   in the order the rows come back (not the rank order of `productIds`).
   */
  function GetProductDetails(productIds: seq<int>, products: seq<ProductRow>, metricRows: seq<MetricRow>,
                             sign: string -> Option<string>): (details: seq<ProductDetail>)
    ensures |details| == |Selected(products, productIds)|
    ensures forall i :: 0 <= i < |details| ==> Describes(details[i], Selected(products, productIds)[i], metricRows, sign)
    ensures forall i :: 0 <= i < |details| ==> details[i].id in productIds
  {
    var rows := Selected(products, productIds);
    SelectedMembers(products, productIds);
    seq(|rows|, i requires 0 <= i < |rows| => Assemble(rows[i], metricRows, sign))
  }

  /**
   A requested id has a record exactly when the catalog has a row for it, and
   as many records as the catalog has rows for it (so one row, one record):
   ids with no product row are left out, not filled with nulls.
   */
  lemma DetailsCoverExactlyCatalogued(productIds: seq<int>, products: seq<ProductRow>, metricRows: seq<MetricRow>,
                                      sign: string -> Option<string>, pid: int)
    requires pid in productIds
    ensures (exists i :: 0 <= i < |GetProductDetails(productIds, products, metricRows, sign)|
                         && GetProductDetails(productIds, products, metricRows, sign)[i].id == pid)
        <==> (exists j :: 0 <= j < |products| && products[j].id == pid)
    ensures CountDetailId(GetProductDetails(productIds, products, metricRows, sign), pid) == CountId(products, pid)
  {
    var rows := Selected(products, productIds);
    var details := GetProductDetails(productIds, products, metricRows, sign);
    SelectedMembers(products, productIds);
    if i :| 0 <= i < |details| && details[i].id == pid {
      assert rows[i] in products;
      var j :| 0 <= j < |products| && products[j] == rows[i];
    }
    if j :| 0 <= j < |products| && products[j].id == pid {
      assert products[j] in rows;
      var i :| 0 <= i < |rows| && rows[i] == products[j];
      assert details[i].id == pid;
    }
    CountsFollowRows(details, rows, pid);
    SelectedCounts(products, productIds, pid);
  }

  /** A product without metric rows gets `scores = {}`. */
  lemma NoMetricsGivesEmptyScores(metricRows: seq<MetricRow>, pid: int)
    requires forall i :: 0 <= i < |metricRows| ==> metricRows[i].productId != pid
    ensures ScoresOf(metricRows, pid) == map[]
  {
    var scores := ScoresOf(metricRows, pid);
    assert forall m :: !HasLevel(metricRows, pid, m);
    assert scores.Keys == {};
  }
}
