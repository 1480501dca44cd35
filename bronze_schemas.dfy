/** The nine Bronze schemas: presence of the expected columns, non-null
    identifiers and advisory value checks on the raw values. */
module BronzeSchemas {
  import opened Wrappers
  import opened Strings
  import opened Values
  import opened Tables
  import opened SchemaCore

  const OrderStatusAllowed: seq<string> := [
    "created", "approved", "invoiced", "processing", "shipped",
    "delivered", "canceled", "unavailable"
  ]

  const PaymentTypesAllowed: seq<string> := [
    "credit_card", "boleto", "voucher", "debit_card", "not_defined"
  ]

  /** The 26 Brazilian states and the Federal District. */
  const BrazilStates: seq<string> := [
    "AC", "AL", "AP", "AM", "BA", "CE", "DF", "ES", "GO", "MA", "MT", "MS", "MG",
    "PA", "PB", "PR", "PE", "PI", "RJ", "RN", "RS", "RO", "RR", "SC", "SP", "SE", "TO"
  ]

  function Col(name: string, ty: ColType, nullable: bool, checks: seq<Check>): ColumnSpec {
    ColumnSpec(name, ty, nullable, checks)
  }

  const Customers := TableSchema([
    Col("customer_id", TString, false, []),
    Col("customer_unique_id", TString, true, []),
    Col("customer_zip_code_prefix", TString, false, []),
    Col("customer_city", TString, false, []),
    Col("customer_state", TString, false, [])
  ], [], [])

  const Orders := TableSchema([
    Col("order_id", TString, false, []),
    Col("customer_id", TString, true, []),
    Col("order_status", TString, true, [IsIn(OrderStatusAllowed)]),
    Col("order_purchase_timestamp", TTime, true, []),
    Col("order_approved_at", TTime, true, []),
    Col("order_delivered_carrier_date", TTime, true, []),
    Col("order_delivered_customer_date", TTime, true, []),
    Col("order_estimated_delivery_date", TTime, true, [])
  ], [], [])

  const OrderItems := TableSchema([
    Col("order_id", TString, false, []),
    Col("order_item_id", TInt, true, [Ge(1.0)]),
    Col("product_id", TString, true, []),
    Col("seller_id", TString, true, []),
    Col("shipping_limit_date", TTime, true, []),
    Col("price", TFloat, true, [Ge(0.0)]),
    Col("freight_value", TFloat, true, [Ge(0.0)])
  ], [], [])

  const OrderPayments := TableSchema([
    Col("order_id", TString, false, []),
    Col("payment_sequential", TInt, true, [Ge(1.0)]),
    Col("payment_type", TString, true, [IsIn(PaymentTypesAllowed)]),
    Col("payment_installments", TInt, true, [Ge(0.0)]),
    Col("payment_value", TFloat, true, [Ge(0.0)])
  ], [], [])

  const OrderReviews := TableSchema([
    Col("review_id", TString, false, []),
    Col("order_id", TString, true, []),
    Col("review_score", TInt, true, [InRange(1.0, 5.0)]),
    Col("review_comment_title", TString, true, []),
    Col("review_comment_message", TString, true, []),
    Col("review_creation_date", TTime, true, []),
    Col("review_answer_timestamp", TTime, true, [])
  ], [], [AnswerNotBeforeCreation])

  const Products := TableSchema([
    Col("product_id", TString, false, []),
    Col("product_category_name", TString, true, []),
    Col("product_name_lenght", TInt, true, [Ge(0.0)]),
    Col("product_description_lenght", TInt, true, [Ge(0.0)]),
    Col("product_photos_qty", TInt, true, [Ge(0.0)]),
    Col("product_weight_g", TFloat, true, [Ge(0.0), Le(100000.0)]),
    Col("product_length_cm", TFloat, true, [Ge(0.0), Le(200.0)]),
    Col("product_height_cm", TFloat, true, [Ge(0.0), Le(200.0)]),
    Col("product_width_cm", TFloat, true, [Ge(0.0), Le(200.0)])
  ], [], [])

  const Sellers := TableSchema([
    Col("seller_id", TString, false, []),
    Col("seller_zip_code_prefix", TString, true, [AllDigits, LenBetween(3, 8)]),
    Col("seller_city", TString, true, []),
    Col("seller_state", TString, true, [IsIn(BrazilStates)])
  ], [], [])

  const Geolocation := TableSchema([
    Col("geolocation_zip_code_prefix", TString, false, [AllDigits, LenBetween(3, 8)]),
    Col("geolocation_lat", TFloat, true, [Ge(-90.0), Le(90.0)]),
    Col("geolocation_lng", TFloat, true, [Ge(-180.0), Le(180.0)]),
    Col("geolocation_city", TString, true, []),
    Col("geolocation_state", TString, true, [IsIn(BrazilStates)])
  ], [], [])

  const CategoryTranslation := TableSchema([
    Col("product_category_name", TString, false, [NotBlank, MinLen(1)]),
    Col("product_category_name_english", TString, true, [NotBlank])
  ], [], [])

  // ---------------------------------------------------------------------------
  // The checks in plain terms, for cells already of the declared type

  /** Missing, or a number at least `lo`. */
  predicate AtLeast(c: Cell, lo: real) {
    c.Some? ==> IsNumber(c.value) && Num(c.value) >= lo
  }

  /** Missing, or a number in [lo, hi]. */
  predicate Within(c: Cell, lo: real, hi: real) {
    c.Some? ==> IsNumber(c.value) && lo <= Num(c.value) <= hi
  }

  /** Missing, or one of the allowed texts. */
  predicate OneOf(c: Cell, allowed: seq<string>) {
    c.Some? ==> c.value.Text? && c.value.s in allowed
  }

  /** A ZIP-code prefix: only digits, 3 to 8 of them. */
  predicate ZipText(c: Cell) {
    c.Some? && c.value.Text? && IsDigits(c.value.s) && 3 <= |c.value.s| <= 8
  }

  predicate CustomerRow(r: Row) {
    && Get(r, "customer_id").Some? && Get(r, "customer_zip_code_prefix").Some?
    && Get(r, "customer_city").Some? && Get(r, "customer_state").Some?
  }

  predicate OrderRow(r: Row) {
    Get(r, "order_id").Some? && OneOf(Get(r, "order_status"), OrderStatusAllowed)
  }

  predicate OrderItemRow(r: Row) {
    && Get(r, "order_id").Some?
    && AtLeast(Get(r, "order_item_id"), 1.0)
    && AtLeast(Get(r, "price"), 0.0)
    && AtLeast(Get(r, "freight_value"), 0.0)
  }

  predicate PaymentRow(r: Row) {
    && Get(r, "order_id").Some?
    && AtLeast(Get(r, "payment_sequential"), 1.0)
    && OneOf(Get(r, "payment_type"), PaymentTypesAllowed)
    && AtLeast(Get(r, "payment_installments"), 0.0)
    && AtLeast(Get(r, "payment_value"), 0.0)
  }

  /** A score in [1, 5] when present, and an answer not before the creation when both are present. */
  predicate ReviewRow(r: Row) {
    && Get(r, "review_id").Some?
    && Within(Get(r, "review_score"), 1.0, 5.0)
    && AnswerOk(r)
  }

  predicate ProductRow(r: Row) {
    && Get(r, "product_id").Some?
    && AtLeast(Get(r, "product_name_lenght"), 0.0)
    && AtLeast(Get(r, "product_description_lenght"), 0.0)
    && AtLeast(Get(r, "product_photos_qty"), 0.0)
    && Within(Get(r, "product_weight_g"), 0.0, 100000.0)
    && Within(Get(r, "product_length_cm"), 0.0, 200.0)
    && Within(Get(r, "product_height_cm"), 0.0, 200.0)
    && Within(Get(r, "product_width_cm"), 0.0, 200.0)
  }

  predicate SellerRow(r: Row) {
    && Get(r, "seller_id").Some?
    && (Get(r, "seller_zip_code_prefix").Some? ==> ZipText(Get(r, "seller_zip_code_prefix")))
    && OneOf(Get(r, "seller_state"), BrazilStates)
  }

  predicate GeolocationRow(r: Row) {
    && ZipText(Get(r, "geolocation_zip_code_prefix"))
    && Within(Get(r, "geolocation_lat"), -90.0, 90.0)
    && Within(Get(r, "geolocation_lng"), -180.0, 180.0)
    && OneOf(Get(r, "geolocation_state"), BrazilStates)
  }

  /** A category name that is not blank; an English name, when present, not blank either. */
  predicate TranslationRow(r: Row) {
    var pt := Get(r, "product_category_name");
    var en := Get(r, "product_category_name_english");
    && pt.Some? && pt.value.Text? && Strip(pt.value.s) != ""
    && (en.Some? ==> en.value.Text? && Strip(en.value.s) != "")
  }

  predicate AllRows(t: Table, p: Row -> bool) {
    forall i :: 0 <= i < |t.rows| ==> p(t.rows[i])
  }

  lemma CustomersRule(t: Table)
    requires TableTyped(Customers, t)
    ensures Accepts(Customers, t) <==> AllRows(t, CustomerRow)
  {
    assert forall i :: 0 <= i < |t.rows| ==> (RowOk(Customers, t.rows[i]) <==> CustomerRow(t.rows[i]));
  }

  lemma OrdersRule(t: Table)
    requires TableTyped(Orders, t)
    ensures Accepts(Orders, t) <==> AllRows(t, OrderRow)
  {
    assert forall i :: 0 <= i < |t.rows| ==> (RowOk(Orders, t.rows[i]) <==> OrderRow(t.rows[i]));
  }

  lemma OrderItemsRule(t: Table)
    requires TableTyped(OrderItems, t)
    ensures Accepts(OrderItems, t) <==> AllRows(t, OrderItemRow)
  {
    assert forall i :: 0 <= i < |t.rows| ==> (RowOk(OrderItems, t.rows[i]) <==> OrderItemRow(t.rows[i]));
  }

  lemma OrderPaymentsRule(t: Table)
    requires TableTyped(OrderPayments, t)
    ensures Accepts(OrderPayments, t) <==> AllRows(t, PaymentRow)
  {
    assert forall i :: 0 <= i < |t.rows| ==> (RowOk(OrderPayments, t.rows[i]) <==> PaymentRow(t.rows[i]));
  }

  lemma OrderReviewsRule(t: Table)
    requires TableTyped(OrderReviews, t)
    ensures Accepts(OrderReviews, t) <==> AllRows(t, ReviewRow)
  {
    assert forall i :: 0 <= i < |t.rows| ==>
      (RowOk(OrderReviews, t.rows[i]) <==> Get(t.rows[i], "review_id").Some? && Within(Get(t.rows[i], "review_score"), 1.0, 5.0));
    assert OrderReviews.frameChecks == [AnswerNotBeforeCreation];
    assert (forall f :: f in OrderReviews.frameChecks ==> FrameCheckHolds(f, t.rows))
      <==> FrameCheckHolds(AnswerNotBeforeCreation, t.rows);
  }

  lemma ProductsRule(t: Table)
    requires TableTyped(Products, t)
    ensures Accepts(Products, t) <==> AllRows(t, ProductRow)
  {
    forall i | 0 <= i < |t.rows| ensures RowOk(Products, t.rows[i]) <==> ProductRow(t.rows[i]) {
      ProductTyped(t.rows[i]);
      ProductRowOk(t.rows[i]);
    }
  }

  /** The column types of `Products`, read off one row of a typed table. */
  lemma ProductTyped(r: Row)
    requires forall sp :: sp in Products.columns ==> Typed(sp.ty, Get(r, sp.name))
    ensures Typed(TString, Get(r, "product_id"))
    ensures Typed(TString, Get(r, "product_category_name"))
    ensures Typed(TInt, Get(r, "product_name_lenght"))
    ensures Typed(TInt, Get(r, "product_description_lenght"))
    ensures Typed(TInt, Get(r, "product_photos_qty"))
    ensures Typed(TFloat, Get(r, "product_weight_g"))
    ensures Typed(TFloat, Get(r, "product_length_cm"))
    ensures Typed(TFloat, Get(r, "product_height_cm"))
    ensures Typed(TFloat, Get(r, "product_width_cm"))
  {
    assert Products.columns[0] in Products.columns;
    assert Products.columns[1] in Products.columns;
    assert Products.columns[2] in Products.columns;
    assert Products.columns[3] in Products.columns;
    assert Products.columns[4] in Products.columns;
    assert Products.columns[5] in Products.columns;
    assert Products.columns[6] in Products.columns;
    assert Products.columns[7] in Products.columns;
    assert Products.columns[8] in Products.columns;
  }

  lemma ProductRowOk(r: Row)
    requires Typed(TString, Get(r, "product_id"))
    requires Typed(TString, Get(r, "product_category_name"))
    requires Typed(TInt, Get(r, "product_name_lenght"))
    requires Typed(TInt, Get(r, "product_description_lenght"))
    requires Typed(TInt, Get(r, "product_photos_qty"))
    requires Typed(TFloat, Get(r, "product_weight_g"))
    requires Typed(TFloat, Get(r, "product_length_cm"))
    requires Typed(TFloat, Get(r, "product_height_cm"))
    requires Typed(TFloat, Get(r, "product_width_cm"))
    ensures RowOk(Products, r) <==> ProductRow(r)
  {
    ProductCells(r);
    RowOkByIndex(Products, r);
  }

  /** Each of the nine `Products` columns, read as a condition on its own cell. */
  lemma ProductCells(r: Row)
    requires Typed(TString, Get(r, "product_id"))
    requires Typed(TString, Get(r, "product_category_name"))
    requires Typed(TInt, Get(r, "product_name_lenght"))
    requires Typed(TInt, Get(r, "product_description_lenght"))
    requires Typed(TInt, Get(r, "product_photos_qty"))
    requires Typed(TFloat, Get(r, "product_weight_g"))
    requires Typed(TFloat, Get(r, "product_length_cm"))
    requires Typed(TFloat, Get(r, "product_height_cm"))
    requires Typed(TFloat, Get(r, "product_width_cm"))
    ensures CellOk(Products.columns[0], Get(r, Products.columns[0].name)) <==> Get(r, Products.columns[0].name).Some?
    ensures CellOk(Products.columns[1], Get(r, Products.columns[1].name))
    ensures CellOk(Products.columns[2], Get(r, Products.columns[2].name)) <==> AtLeast(Get(r, "product_name_lenght"), 0.0)
    ensures CellOk(Products.columns[3], Get(r, Products.columns[3].name)) <==> AtLeast(Get(r, "product_description_lenght"), 0.0)
    ensures CellOk(Products.columns[4], Get(r, Products.columns[4].name)) <==> AtLeast(Get(r, "product_photos_qty"), 0.0)
    ensures CellOk(Products.columns[5], Get(r, Products.columns[5].name)) <==> Within(Get(r, "product_weight_g"), 0.0, 100000.0)
    ensures CellOk(Products.columns[6], Get(r, Products.columns[6].name)) <==> Within(Get(r, "product_length_cm"), 0.0, 200.0)
    ensures CellOk(Products.columns[7], Get(r, Products.columns[7].name)) <==> Within(Get(r, "product_height_cm"), 0.0, 200.0)
    ensures CellOk(Products.columns[8], Get(r, Products.columns[8].name)) <==> Within(Get(r, "product_width_cm"), 0.0, 200.0)
  {
    var cs := Products.columns;
    KeyCell(cs[0], Get(r, cs[0].name));
    FreeCell(cs[1], Get(r, cs[1].name));
    AtLeastCell(cs[2], Get(r, cs[2].name), 0.0);
    AtLeastCell(cs[3], Get(r, cs[3].name), 0.0);
    AtLeastCell(cs[4], Get(r, cs[4].name), 0.0);
    WithinCell(cs[5], Get(r, cs[5].name), 0.0, 100000.0);
    WithinCell(cs[6], Get(r, cs[6].name), 0.0, 200.0);
    WithinCell(cs[7], Get(r, cs[7].name), 0.0, 200.0);
    WithinCell(cs[8], Get(r, cs[8].name), 0.0, 200.0);
  }

  // ---------------------------------------------------------------------------
  // What one typed cell must satisfy, by the shape of its column

  /** A non-nullable column without checks holds any typed cell that is present. */
  lemma KeyCell(sp: ColumnSpec, c: Cell)
    requires !sp.nullable && |sp.checks| == 0 && Typed(sp.ty, c)
    ensures CellOk(sp, c) <==> c.Some?
  {
  }

  /** A nullable column without checks holds any typed cell. */
  lemma FreeCell(sp: ColumnSpec, c: Cell)
    requires sp.nullable && |sp.checks| == 0 && Typed(sp.ty, c)
    ensures CellOk(sp, c)
  {
  }

  /** A nullable numeric column with `Check.ge(lo)`. */
  lemma AtLeastCell(sp: ColumnSpec, c: Cell, lo: real)
    requires sp.nullable && |sp.checks| == 1 && sp.checks[0] == Ge(lo) && (sp.ty == TInt || sp.ty == TFloat) && Typed(sp.ty, c)
    ensures CellOk(sp, c) <==> AtLeast(c, lo)
  {
  }

  /** A nullable numeric column with `Check.ge(lo)` and `Check.le(hi)`. */
  lemma WithinCell(sp: ColumnSpec, c: Cell, lo: real, hi: real)
    requires sp.nullable && |sp.checks| == 2 && sp.checks[0] == Ge(lo) && sp.checks[1] == Le(hi) && (sp.ty == TInt || sp.ty == TFloat) && Typed(sp.ty, c)
    ensures CellOk(sp, c) <==> Within(c, lo, hi)
  {
  }

  lemma SellersRule(t: Table)
    requires TableTyped(Sellers, t)
    ensures Accepts(Sellers, t) <==> AllRows(t, SellerRow)
  {
    assert forall i :: 0 <= i < |t.rows| ==> (RowOk(Sellers, t.rows[i]) <==> SellerRow(t.rows[i]));
  }

  lemma GeolocationRule(t: Table)
    requires TableTyped(Geolocation, t)
    ensures Accepts(Geolocation, t) <==> AllRows(t, GeolocationRow)
  {
    assert forall i :: 0 <= i < |t.rows| ==> (RowOk(Geolocation, t.rows[i]) <==> GeolocationRow(t.rows[i]));
  }

  lemma CategoryTranslationRule(t: Table)
    requires TableTyped(CategoryTranslation, t)
    ensures Accepts(CategoryTranslation, t) <==> AllRows(t, TranslationRow)
  {
    forall i | 0 <= i < |t.rows| ensures RowOk(CategoryTranslation, t.rows[i]) <==> TranslationRow(t.rows[i]) {
      var cs := CategoryTranslation.columns;
      assert cs[0] in cs && cs[1] in cs;
      TranslationRowOk(t.rows[i]);
    }
  }

  lemma TranslationRowOk(r: Row)
    requires Typed(TString, Get(r, "product_category_name"))
    requires Typed(TString, Get(r, "product_category_name_english"))
    ensures RowOk(CategoryTranslation, r) <==> TranslationRow(r)
  {
    var cs := CategoryTranslation.columns;
    NotBlankCell(cs[0], Get(r, cs[0].name));
    NotBlankCell(cs[1], Get(r, cs[1].name));
    RowOkByIndex(CategoryTranslation, r);
  }

  /** A text column whose checks are `str.strip() != ""` and, optionally, a minimum
      length of one: a cell present passes exactly when it is not blank, the length
      check being implied. */
  lemma NotBlankCell(sp: ColumnSpec, c: Cell)
    requires sp.ty == TString && Typed(sp.ty, c)
    requires (|sp.checks| == 1 || (|sp.checks| == 2 && sp.checks[1] == MinLen(1))) && sp.checks[0] == NotBlank
    ensures CellOk(sp, c) <==> if c.None? then sp.nullable else Strip(c.value.s) != ""
  {
    if c.Some? && Strip(c.value.s) != "" {
      assert |c.value.s| >= 1;
    }
  }
}
