/** The eight Gold schemas: strict types, non-null keys and primary-key uniqueness. */
module GoldSchemas {
  import opened Wrappers
  import opened Values
  import opened Tables
  import opened SchemaCore

  function Col(name: string, ty: ColType, nullable: bool): ColumnSpec {
    ColumnSpec(name, ty, nullable, [])
  }

  const DimCustomers := TableSchema([
    Col("customer_id", TString, false),
    Col("customer_city", TString, true),
    Col("customer_state", TString, true)
  ], ["customer_id"], [])

  const DimProducts := TableSchema([
    Col("product_id", TString, false),
    Col("product_category_name", TString, true),
    Col("product_category_name_english", TString, true)
  ], ["product_id"], [])

  const DimSellers := TableSchema([
    Col("seller_id", TString, false),
    Col("seller_zip_code_prefix", TInt, true),
    Col("seller_city", TString, true),
    Col("seller_state", TString, true)
  ], ["seller_id"], [])

  const DimDate := TableSchema([
    Col("date_id", TInt, false),
    Col("date", TTime, false),
    Col("year", TInt, false),
    Col("month", TInt, false),
    Col("day", TInt, false)
  ], ["date_id"], [])

  const FactOrders := TableSchema([
    Col("order_id", TString, false),
    Col("customer_id", TString, false),
    Col("purchase_date_id", TInt, false),
    Col("order_status", TString, true),
    Col("order_purchase_timestamp", TTime, true),
    Col("order_approved_at", TTime, true),
    Col("order_delivered_carrier_date", TTime, true),
    Col("order_delivered_customer_date", TTime, true),
    Col("order_estimated_delivery_date", TTime, true)
  ], ["order_id"], [])

  const FactOrderItems := TableSchema([
    Col("order_id", TString, false),
    Col("order_item_id", TInt, false),
    Col("product_id", TString, false),
    Col("seller_id", TString, false),
    Col("customer_id", TString, false),
    Col("shipping_limit_date", TTime, true),
    Col("price", TFloat, true),
    Col("freight_value", TFloat, true),
    Col("purchase_date_id", TInt, false),
    Col("shipping_limit_date_id", TInt, true)
  ], ["order_id", "order_item_id"], [])

  const OrderPayments := TableSchema([
    Col("order_id", TString, false),
    Col("payment_sequential", TInt, true),
    Col("payment_type", TString, true),
    Col("payment_installments", TInt, true),
    Col("payment_value", TFloat, true)
  ], [], [])

  const OrderReviews := TableSchema([
    Col("review_id", TString, false),
    Col("order_id", TString, true),
    ColumnSpec("review_score", TInt, true, [InRange(1.0, 5.0)]),
    Col("review_creation_date", TTime, true),
    Col("review_answer_timestamp", TTime, true),
    Col("review_comment_title", TString, true),
    Col("review_comment_message", TString, true)
  ], ["review_id"], [])

  /** Column `c` holds no missing cell. */
  predicate NonNull(t: Table, c: string) {
    forall i :: 0 <= i < |t.rows| ==> Get(t.rows[i], c).Some?
  }

  /** Column `c` is a primary key: no missing cell and no repeated value. */
  predicate PrimaryKey(t: Table, c: string) {
    NonNull(t, c) && OnDistinct(t.rows, c)
  }

  lemma DimCustomersRule(t: Table)
    requires TableTyped(DimCustomers, t)
    ensures Accepts(DimCustomers, t) <==> PrimaryKey(t, "customer_id")
  {
    UniqueOnSingle(t.rows, "customer_id");
    assert forall i :: 0 <= i < |t.rows| ==> (RowOk(DimCustomers, t.rows[i]) <==> Get(t.rows[i], "customer_id").Some?);
  }

  lemma DimProductsRule(t: Table)
    requires TableTyped(DimProducts, t)
    ensures Accepts(DimProducts, t) <==> PrimaryKey(t, "product_id")
  {
    UniqueOnSingle(t.rows, "product_id");
    assert forall i :: 0 <= i < |t.rows| ==> (RowOk(DimProducts, t.rows[i]) <==> Get(t.rows[i], "product_id").Some?);
  }

  lemma DimSellersRule(t: Table)
    requires TableTyped(DimSellers, t)
    ensures Accepts(DimSellers, t) <==> PrimaryKey(t, "seller_id")
  {
    UniqueOnSingle(t.rows, "seller_id");
    assert forall i :: 0 <= i < |t.rows| ==> (RowOk(DimSellers, t.rows[i]) <==> Get(t.rows[i], "seller_id").Some?);
  }

  lemma DimDateRule(t: Table)
    requires TableTyped(DimDate, t)
    ensures Accepts(DimDate, t) <==>
      PrimaryKey(t, "date_id") && NonNull(t, "date") && NonNull(t, "year") && NonNull(t, "month") && NonNull(t, "day")
  {
    UniqueOnSingle(t.rows, "date_id");
    assert forall i :: 0 <= i < |t.rows| ==> (RowOk(DimDate, t.rows[i]) <==>
      Get(t.rows[i], "date_id").Some? && Get(t.rows[i], "date").Some? && Get(t.rows[i], "year").Some?
      && Get(t.rows[i], "month").Some? && Get(t.rows[i], "day").Some?);
  }

  lemma FactOrdersRule(t: Table)
    requires TableTyped(FactOrders, t)
    ensures Accepts(FactOrders, t) <==>
      PrimaryKey(t, "order_id") && NonNull(t, "customer_id") && NonNull(t, "purchase_date_id")
  {
    UniqueOnSingle(t.rows, "order_id");
    assert forall i :: 0 <= i < |t.rows| ==> (RowOk(FactOrders, t.rows[i]) <==>
      Get(t.rows[i], "order_id").Some? && Get(t.rows[i], "customer_id").Some? && Get(t.rows[i], "purchase_date_id").Some?);
  }

  /** The line-item key is the pair (order_id, order_item_id). */
  lemma KeyPair(r: Row, q: Row, a: string, b: string)
    ensures Key(r, [a, b]) == Key(q, [a, b]) <==> Get(r, a) == Get(q, a) && Get(r, b) == Get(q, b)
  {
    if Get(r, a) == Get(q, a) && Get(r, b) == Get(q, b) {
      assert Key(r, [a, b]) == [Get(r, a), Get(r, b)];
      assert Key(q, [a, b]) == [Get(q, a), Get(q, b)];
    } else if Get(r, a) != Get(q, a) {
      assert Key(r, [a, b])[0] != Key(q, [a, b])[0];
    } else {
      assert Key(r, [a, b])[1] != Key(q, [a, b])[1];
    }
  }

  lemma FactOrderItemsRule(t: Table)
    requires TableTyped(FactOrderItems, t)
    ensures Accepts(FactOrderItems, t) <==>
      && NonNull(t, "order_id") && NonNull(t, "order_item_id") && NonNull(t, "product_id")
      && NonNull(t, "seller_id") && NonNull(t, "customer_id") && NonNull(t, "purchase_date_id")
      && forall i, j :: 0 <= i < j < |t.rows| ==>
           !(Get(t.rows[i], "order_id") == Get(t.rows[j], "order_id") && Get(t.rows[i], "order_item_id") == Get(t.rows[j], "order_item_id"))
  {
    forall i, j | 0 <= i < j < |t.rows|
      ensures Key(t.rows[i], ["order_id", "order_item_id"]) == Key(t.rows[j], ["order_id", "order_item_id"])
              <==> Get(t.rows[i], "order_id") == Get(t.rows[j], "order_id") && Get(t.rows[i], "order_item_id") == Get(t.rows[j], "order_item_id")
    {
      KeyPair(t.rows[i], t.rows[j], "order_id", "order_item_id");
    }
    forall i | 0 <= i < |t.rows| ensures RowOk(FactOrderItems, t.rows[i]) <==> FactItemKeys(t.rows[i]) {
      FactItemRowOk(t.rows[i]);
    }
  }

  /** The non-nullable columns of `FactOrderItems` are present. */
  predicate FactItemKeys(r: Row) {
    && Get(r, "order_id").Some? && Get(r, "order_item_id").Some? && Get(r, "product_id").Some?
    && Get(r, "seller_id").Some? && Get(r, "customer_id").Some? && Get(r, "purchase_date_id").Some?
  }

  lemma FactItemRowOk(r: Row)
    requires forall sp :: sp in FactOrderItems.columns ==> Typed(sp.ty, Get(r, sp.name))
    ensures RowOk(FactOrderItems, r) <==> FactItemKeys(r)
  {
    PlainRowOk(FactOrderItems, r);
  }

  /** A schema without value checks: under the declared types, a row passes exactly
      when every non-nullable column is present. */
  lemma PlainRowOk(s: TableSchema, r: Row)
    requires forall sp :: sp in s.columns ==> |sp.checks| == 0
    requires forall sp :: sp in s.columns ==> Typed(sp.ty, Get(r, sp.name))
    ensures RowOk(s, r) <==> forall k :: 0 <= k < |s.columns| && !s.columns[k].nullable ==> Get(r, s.columns[k].name).Some?
  {
    RowOkByIndex(s, r);
    forall k | 0 <= k < |s.columns| ensures CellOk(s.columns[k], Get(r, s.columns[k].name)) <==> s.columns[k].nullable || Get(r, s.columns[k].name).Some? {
      assert s.columns[k] in s.columns;
    }
  }

  lemma OrderPaymentsRule(t: Table)
    requires TableTyped(OrderPayments, t)
    ensures Accepts(OrderPayments, t) <==> NonNull(t, "order_id")
  {
    assert forall i :: 0 <= i < |t.rows| ==> (RowOk(OrderPayments, t.rows[i]) <==> Get(t.rows[i], "order_id").Some?);
  }

  /** A review score, when present, is 1 to 5. */
  predicate ScoreInRange(c: Cell) {
    c.Some? && c.value.Int? ==> 1 <= c.value.i <= 5
  }

  lemma OrderReviewsRule(t: Table)
    requires TableTyped(OrderReviews, t)
    ensures Accepts(OrderReviews, t) <==>
      PrimaryKey(t, "review_id") && forall i :: 0 <= i < |t.rows| ==> ScoreInRange(Get(t.rows[i], "review_score"))
  {
    UniqueOnSingle(t.rows, "review_id");
    forall i | 0 <= i < |t.rows|
      ensures RowOk(OrderReviews, t.rows[i]) <==> Get(t.rows[i], "review_id").Some? && ScoreInRange(Get(t.rows[i], "review_score"))
    {
      var sc := Get(t.rows[i], "review_score");
      assert Typed(TInt, sc);
      if sc.Some? {
        assert CheckHolds(InRange(1.0, 5.0), sc.value) <==> 1 <= sc.value.i <= 5;
      }
    }
  }
}
