/** The nine Silver schemas: every table is coerced to its declared types, only
    the identifier columns (and the geolocation ZIP prefix) are non-null, the
    review score is range-checked, and no uniqueness is imposed. */
module SilverSchemas {
  import opened Wrappers
  import opened Values
  import opened Tables
  import opened SchemaCore

  function Col(name: string, ty: ColType, nullable: bool): ColumnSpec {
    ColumnSpec(name, ty, nullable, [])
  }

  const Customers := TableSchema([
    Col("customer_id", TString, false),
    Col("customer_unique_id", TString, true),
    Col("customer_zip_code_prefix", TInt, true),
    Col("customer_city", TString, true),
    Col("customer_state", TString, true)
  ], [], [])

  const Orders := TableSchema([
    Col("order_id", TString, false),
    Col("customer_id", TString, true),
    Col("order_status", TString, true),
    Col("order_purchase_timestamp", TTime, true),
    Col("order_approved_at", TTime, true),
    Col("order_delivered_carrier_date", TTime, true),
    Col("order_delivered_customer_date", TTime, true),
    Col("order_estimated_delivery_date", TTime, true)
  ], [], [])

  const OrderItems := TableSchema([
    Col("order_id", TString, false),
    Col("order_item_id", TInt, true),
    Col("product_id", TString, true),
    Col("seller_id", TString, true),
    Col("shipping_limit_date", TTime, true),
    Col("price", TFloat, true),
    Col("freight_value", TFloat, true)
  ], [], [])

  const OrderPayments := TableSchema([
    Col("order_id", TString, false),
    Col("payment_sequential", TInt, true),
    Col("payment_type", TString, true),
    Col("payment_installments", TInt, true),
    Col("payment_value", TFloat, true)
  ], [], [])

  const OrderReviews := TableSchema([
    Col("review_id", TString, false),
    Col("order_id", TString, true),
    ColumnSpec("review_score", TInt, true, [InRange(1.0, 5.0)]),
    Col("review_comment_title", TString, true),
    Col("review_comment_message", TString, true),
    Col("review_creation_date", TTime, true),
    Col("review_answer_timestamp", TTime, true)
  ], [], [])

  const Products := TableSchema([
    Col("product_id", TString, false),
    Col("product_category_name", TString, true),
    Col("product_name_lenght", TInt, true),
    Col("product_description_lenght", TInt, true),
    Col("product_photos_qty", TInt, true),
    Col("product_weight_g", TFloat, true),
    Col("product_length_cm", TFloat, true),
    Col("product_height_cm", TFloat, true),
    Col("product_width_cm", TFloat, true)
  ], [], [])

  const Sellers := TableSchema([
    Col("seller_id", TString, false),
    Col("seller_zip_code_prefix", TInt, true),
    Col("seller_city", TString, true),
    Col("seller_state", TString, true)
  ], [], [])

  const Geolocation := TableSchema([
    Col("geolocation_zip_code_prefix", TInt, false),
    Col("geolocation_lat", TFloat, true),
    Col("geolocation_lng", TFloat, true),
    Col("geolocation_city", TString, true),
    Col("geolocation_state", TString, true)
  ], [], [])

  const CategoryTranslation := TableSchema([
    Col("product_category_name", TString, false),
    Col("product_category_name_english", TString, true)
  ], [], [])

  /** The Silver schemas in the order of their registry. */
  const All: seq<TableSchema> := [
    Customers, Orders, OrderItems, OrderPayments, OrderReviews,
    Products, Sellers, Geolocation, CategoryTranslation
  ]

  predicate NonNull(t: Table, c: string) {
    forall i :: 0 <= i < |t.rows| ==> Get(t.rows[i], c).Some?
  }

  /** A typed table passes its Silver schema exactly when its identifier column has no
      missing cell (for reviews: and every present score is between 1 and 5). */
  lemma CustomersRule(t: Table)
    requires TableTyped(Customers, t)
    ensures Accepts(Customers, t) <==> NonNull(t, "customer_id")
  {
    assert forall i :: 0 <= i < |t.rows| ==> (RowOk(Customers, t.rows[i]) <==> Get(t.rows[i], "customer_id").Some?);
  }

  lemma OrdersRule(t: Table)
    requires TableTyped(Orders, t)
    ensures Accepts(Orders, t) <==> NonNull(t, "order_id")
  {
    assert forall i :: 0 <= i < |t.rows| ==> (RowOk(Orders, t.rows[i]) <==> Get(t.rows[i], "order_id").Some?);
  }

  lemma OrderItemsRule(t: Table)
    requires TableTyped(OrderItems, t)
    ensures Accepts(OrderItems, t) <==> NonNull(t, "order_id")
  {
    assert forall i :: 0 <= i < |t.rows| ==> (RowOk(OrderItems, t.rows[i]) <==> Get(t.rows[i], "order_id").Some?);
  }

  lemma OrderPaymentsRule(t: Table)
    requires TableTyped(OrderPayments, t)
    ensures Accepts(OrderPayments, t) <==> NonNull(t, "order_id")
  {
    assert forall i :: 0 <= i < |t.rows| ==> (RowOk(OrderPayments, t.rows[i]) <==> Get(t.rows[i], "order_id").Some?);
  }

  lemma OrderReviewsRule(t: Table)
    requires TableTyped(OrderReviews, t)
    ensures Accepts(OrderReviews, t) <==>
      NonNull(t, "review_id") &&
      forall i :: 0 <= i < |t.rows| && Get(t.rows[i], "review_score").Some? ==>
        1 <= Get(t.rows[i], "review_score").value.i <= 5
  {
    forall i | 0 <= i < |t.rows|
      ensures RowOk(OrderReviews, t.rows[i]) <==>
        Get(t.rows[i], "review_id").Some? &&
        (Get(t.rows[i], "review_score").Some? ==> 1 <= Get(t.rows[i], "review_score").value.i <= 5)
    {
      var sc := Get(t.rows[i], "review_score");
      assert Typed(TInt, sc);
      if sc.Some? {
        assert CheckHolds(InRange(1.0, 5.0), sc.value) <==> 1 <= sc.value.i <= 5;
      }
    }
  }

  lemma ProductsRule(t: Table)
    requires TableTyped(Products, t)
    ensures Accepts(Products, t) <==> NonNull(t, "product_id")
  {
    assert forall i :: 0 <= i < |t.rows| ==> (RowOk(Products, t.rows[i]) <==> Get(t.rows[i], "product_id").Some?);
  }

  lemma SellersRule(t: Table)
    requires TableTyped(Sellers, t)
    ensures Accepts(Sellers, t) <==> NonNull(t, "seller_id")
  {
    assert forall i :: 0 <= i < |t.rows| ==> (RowOk(Sellers, t.rows[i]) <==> Get(t.rows[i], "seller_id").Some?);
  }

  lemma GeolocationRule(t: Table)
    requires TableTyped(Geolocation, t)
    ensures Accepts(Geolocation, t) <==> NonNull(t, "geolocation_zip_code_prefix")
  {
    assert forall i :: 0 <= i < |t.rows| ==> (RowOk(Geolocation, t.rows[i]) <==> Get(t.rows[i], "geolocation_zip_code_prefix").Some?);
  }

  lemma CategoryTranslationRule(t: Table)
    requires TableTyped(CategoryTranslation, t)
    ensures Accepts(CategoryTranslation, t) <==> NonNull(t, "product_category_name")
  {
    assert forall i :: 0 <= i < |t.rows| ==> (RowOk(CategoryTranslation, t.rows[i]) <==> Get(t.rows[i], "product_category_name").Some?);
  }

  /** After coerced validation, every geolocation ZIP prefix is a present integer. */
  lemma GeolocationZipInteger(conv: Converter, t: Table)
    requires ValidateTable(Geolocation, true, conv, t).Success?
    ensures var t' := ValidateTable(Geolocation, true, conv, t).value;
      forall i :: 0 <= i < |t'.rows| ==>
        (Get(t'.rows[i], "geolocation_zip_code_prefix").Some? && Get(t'.rows[i], "geolocation_zip_code_prefix").value.Int?)
  {
    var t' := ValidateTable(Geolocation, true, conv, t).value;
    var zip := Col("geolocation_zip_code_prefix", TInt, false);
    assert zip in Geolocation.columns;
    forall i | 0 <= i < |t'.rows|
      ensures Get(t'.rows[i], "geolocation_zip_code_prefix").Some? && Get(t'.rows[i], "geolocation_zip_code_prefix").value.Int?
    {
      assert RowOk(Geolocation, t'.rows[i]);
      assert CellOk(zip, Get(t'.rows[i], zip.name));
    }
  }

  /** No Silver schema declares a unique key, so repeated rows stay valid. */
  lemma NoUniqueness(k: nat, coerce: bool, conv: Converter, t: Table, i: nat)
    requires k < |All| && i < |t.rows|
    requires ValidateTable(All[k], coerce, conv, t).Success?
    ensures ValidateTable(All[k], coerce, conv, WithCopy(t, i)) == Success(WithCopy(ValidateTable(All[k], coerce, conv, t).value, i))
  {
    assert All[k].unique == [];
    ValidateAcceptsCopy(All[k], coerce, conv, t, i);
  }
}
