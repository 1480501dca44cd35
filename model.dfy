/** The Gold tier: the three dimensions, the two fact tables and the two auxiliary
    tables built from Silver, each validated by its Gold schema with coercion on, and
    the calendar dimension derived from the date keys the fact tables use. */
module Model {
  import opened Wrappers
  import opened Values
  import opened Tables
  import opened SchemaCore
  import opened DateKeys
  import GoldSchemas

  // ---------------------------------------------------------------------------
  // Dimensions: projection, exact de-duplication, validation

  const CustomerCols := ["customer_id", "customer_city", "customer_state"]
  const ProductCols := ["product_id", "product_category_name", "product_category_name_english"]
  const SellerCols := ["seller_id", "seller_zip_code_prefix", "seller_city", "seller_state"]

  /** Two projected rows with the same cells are the same row. */
  lemma RestrictKeyEq(a: Row, b: Row, cols: seq<string>)
    requires Key(Restrict(a, cols), cols) == Key(Restrict(b, cols), cols)
    ensures Restrict(a, cols) == Restrict(b, cols)
  {
    forall c | c in cols ensures Restrict(a, cols)[c] == Restrict(b, cols)[c] {
      var k :| 0 <= k < |cols| && cols[k] == c;
      assert Key(Restrict(a, cols), cols)[k] == Key(Restrict(b, cols), cols)[k];
    }
  }

  /** `drop_duplicates()` on a projection: each distinct row once, first kept. */
  function DistinctRows(rows: seq<Row>, cols: seq<string>): seq<Row> {
    DedupFirst(rows, (row: Row) => Key(row, cols))
  }

  lemma ProjectRows(t: Table, cols: seq<string>)
    requires forall c :: c in cols ==> c in t.cols
    ensures var rows := DistinctRows(Select(t, cols).value.rows, cols);
      && (forall k :: 0 <= k < |rows| ==> rows[k].Keys == set c | c in cols)
      && (forall i, j :: 0 <= i < j < |rows| ==> rows[i] != rows[j])
      && (forall row :: row in rows <==> exists i :: 0 <= i < |t.rows| && row == Restrict(t.rows[i], cols))
  {
    ProjectRowsShape(t, cols);
    ProjectRowsMembers(t, cols);
  }

  /** Each kept row has exactly the projected columns, and no row is kept twice. */
  lemma ProjectRowsShape(t: Table, cols: seq<string>)
    requires forall c :: c in cols ==> c in t.cols
    ensures var rows := DistinctRows(Select(t, cols).value.rows, cols);
      && (forall k :: 0 <= k < |rows| ==> rows[k].Keys == set c | c in cols)
      && (forall i, j :: 0 <= i < j < |rows| ==> rows[i] != rows[j])
  {
    var df := Select(t, cols).value;
    var rows := DedupFirst(df.rows, (row: Row) => Key(row, cols));
    SubseqMembers(rows, df.rows);
  }

  /** The kept rows are exactly the projections of the rows of `t`. */
  lemma ProjectRowsMembers(t: Table, cols: seq<string>)
    requires forall c :: c in cols ==> c in t.cols
    ensures var rows := DistinctRows(Select(t, cols).value.rows, cols);
      forall row :: row in rows <==> exists i :: 0 <= i < |t.rows| && row == Restrict(t.rows[i], cols)
  {
    var df := Select(t, cols).value;
    var key := (row: Row) => Key(row, cols);
    var rows := DedupFirst(df.rows, key);
    assert forall i :: 0 <= i < |t.rows| ==> df.rows[i] == Restrict(t.rows[i], cols);
    SubseqMembers(rows, df.rows);
    forall i | 0 <= i < |t.rows| ensures df.rows[i] in rows {
      assert key(df.rows[i]) in KeySet(df.rows, key);
      var j :| 0 <= j < |rows| && key(rows[j]) == key(df.rows[i]);
      var m :| 0 <= m < |t.rows| && rows[j] == df.rows[m];
      RestrictKeyEq(t.rows[m], t.rows[i], cols);
    }
  }

  /** `df[cols].drop_duplicates()`: the projection of every row onto `cols`, each
      distinct projected row once, in order of first appearance. */
  function Project(t: Table, cols: seq<string>): (r: Result<Table, Error>)
    ensures r.Success? <==> forall c :: c in cols ==> c in t.cols
    ensures r.Failure? ==> r.error.MissingColumn? && r.error.column in cols && r.error.column !in t.cols
    ensures r.Success? ==> r.value.cols == cols
    ensures r.Success? ==> forall k :: 0 <= k < |r.value.rows| ==> r.value.rows[k].Keys == set c | c in cols
    ensures r.Success? ==> forall i, j :: 0 <= i < j < |r.value.rows| ==> r.value.rows[i] != r.value.rows[j]
    ensures r.Success? ==> forall row :: row in r.value.rows <==> exists i :: 0 <= i < |t.rows| && row == Restrict(t.rows[i], cols)
  {
    var df :- Select(t, cols);
    ProjectRows(t, cols);
    Success(Table(cols, DistinctRows(df.rows, cols)))
  }

  /** A table the schema accepts has no missing cell in a non-nullable column, and a
      single-column uniqueness constraint makes that column a primary key. */
  lemma AcceptsKey(s: TableSchema, t: Table, k: nat)
    requires Accepts(s, t) && k < |s.columns| && !s.columns[k].nullable
    ensures GoldSchemas.NonNull(t, s.columns[k].name)
    ensures s.unique == [s.columns[k].name] ==> GoldSchemas.PrimaryKey(t, s.columns[k].name)
  {
    var sp := s.columns[k];
    assert sp in s.columns;
    assert forall i :: 0 <= i < |t.rows| ==> CellOk(sp, Get(t.rows[i], sp.name));
    UniqueOnSingle(t.rows, sp.name);
  }

  /** Validation accepts a table only if every non-nullable column is present in every input row. */
  lemma ValidatedPresent(s: TableSchema, coerce: bool, conv: Converter, t: Table, k: nat, i: nat)
    requires ValidateTable(s, coerce, conv, t).Success?
    requires k < |s.columns| && !s.columns[k].nullable && i < |t.rows|
    ensures Get(t.rows[i], s.columns[k].name).Some?
  {
    var f := ValidateTable(s, coerce, conv, t).value;
    ValidateShape(s, coerce, conv, t);
    AcceptsKey(s, f, k);
    assert Get(f.rows[i], s.columns[k].name).Some?;
  }

  /** Coercion leaves a cell alone that already has its column's declared type. */
  lemma ValidateKeepsTyped(s: TableSchema, conv: Converter, t: Table, i: nat, c: string, sp: ColumnSpec)
    requires ValidateTable(s, true, conv, t).Success? && i < |t.rows|
    requires SpecFor(s.columns, c) == Some(sp) && Typed(sp.ty, Get(t.rows[i], c))
    ensures Get(ValidateTable(s, true, conv, t).value.rows[i], c) == Get(t.rows[i], c)
  {
  }

  /** What a validation with coercion under a schema keyed by its `k`-th column
      promises: the same columns, rows and missing cells, a primary key, and the cells of
      a column already of its declared type unchanged. */
  lemma ValidatedKeyed(s: TableSchema, conv: Converter, t: Table, k: nat, c: string, sp: ColumnSpec)
    requires ValidateTable(s, true, conv, t).Success?
    requires k < |s.columns| && !s.columns[k].nullable && s.unique == [s.columns[k].name]
    requires SpecFor(s.columns, c) == Some(sp)
    requires forall i :: 0 <= i < |t.rows| ==> Typed(sp.ty, Get(t.rows[i], c))
    ensures var u := ValidateTable(s, true, conv, t).value;
      && u.cols == t.cols && |u.rows| == |t.rows|
      && GoldSchemas.PrimaryKey(u, s.columns[k].name)
      && (forall i :: 0 <= i < |u.rows| ==> Get(u.rows[i], c) == Get(t.rows[i], c))
      && (forall i, d :: 0 <= i < |u.rows| ==> (Get(u.rows[i], d).None? <==> Get(t.rows[i], d).None?))
  {
    ValidateShape(s, true, conv, t);
    AcceptsKey(s, ValidateTable(s, true, conv, t).value, k);
  }

  /** A dimension builder: project, drop exact repeats, validate with coercion. */
  function Dimension(conv: Converter, t: Table, cols: seq<string>, s: TableSchema): Result<Table, Error> {
    var df :- Project(t, cols);
    ValidateTable(s, true, conv, df)
  }

  function DimCustomers(conv: Converter, t: Table): Result<Table, Error> {
    Dimension(conv, t, CustomerCols, GoldSchemas.DimCustomers)
  }

  function DimProducts(conv: Converter, t: Table): Result<Table, Error> {
    Dimension(conv, t, ProductCols, GoldSchemas.DimProducts)
  }

  function DimSellers(conv: Converter, t: Table): Result<Table, Error> {
    Dimension(conv, t, SellerCols, GoldSchemas.DimSellers)
  }

  /** A built dimension has exactly the projected columns, one row per distinct
      projected row, and its first declared column is a primary key. */
  lemma DimensionKey(conv: Converter, t: Table, cols: seq<string>, s: TableSchema)
    requires |s.columns| > 0 && !s.columns[0].nullable && s.unique == [s.columns[0].name]
    requires Dimension(conv, t, cols, s).Success?
    ensures Project(t, cols).Success?
    ensures var d := Dimension(conv, t, cols, s).value;
      && d.cols == cols
      && |d.rows| == |Project(t, cols).value.rows|
      && GoldSchemas.PrimaryKey(d, s.columns[0].name)
  {
    var df := Project(t, cols).value;
    ValidateShape(s, true, conv, df);
    AcceptsKey(s, Dimension(conv, t, cols, s).value, 0);
  }

  /** Exact de-duplication is all the builder does: two distinct projected rows that
      share the key make validation fail instead of being merged. */
  lemma DimensionClash(conv: Converter, t: Table, cols: seq<string>, s: TableSchema, pk: string, i: nat, j: nat)
    requires s.unique == [pk] && pk in cols
    requires Project(t, cols).Success?
    requires i < j < |Project(t, cols).value.rows|
    requires Get(Project(t, cols).value.rows[i], pk) == Get(Project(t, cols).value.rows[j], pk)
    ensures Dimension(conv, t, cols, s).Failure?
  {
    var df := Project(t, cols).value;
    if ColumnsPresent(s, df) && TableCoercible(s, conv, df) {
      var u := CoerceTable(s, conv, df);
      assert pk in df.rows[i] && pk in df.rows[j];
      assert Get(u.rows[i], pk) == Get(u.rows[j], pk);
      KeySingle(u.rows[i], u.rows[j], pk);
      assert !UniqueOn(u.rows, s.unique);
    }
  }

  // ---------------------------------------------------------------------------
  // Fact tables

  const Purchase := "order_purchase_timestamp"
  const Shipping := "shipping_limit_date"
  const PurchaseId := "purchase_date_id"
  const ShippingId := "shipping_limit_date_id"

  const OrderCols := [
    "order_id", "customer_id", "order_status", Purchase, "order_approved_at",
    "order_delivered_carrier_date", "order_delivered_customer_date", "order_estimated_delivery_date"]

  /** The date-key series of column `c`. */
  function DateIds(conv: Converter, t: Table, c: string): (ids: seq<Cell>)
    ensures |ids| == |t.rows|
  {
    seq(|t.rows|, i requires 0 <= i < |t.rows| => DateIdCell(conv, Get(t.rows[i], c)))
  }

  /** `fact_orders` before validation: the eight order columns plus the purchase key. */
  function FactOrdersFrame(conv: Converter, orders: Table): Result<Table, Error> {
    var df :- Select(orders, OrderCols);
    Success(WithColumn(df, PurchaseId, DateIds(conv, df, Purchase)))
  }

  function FactOrders(conv: Converter, orders: Table): Result<Table, Error> {
    var df :- FactOrdersFrame(conv, orders);
    ValidateTable(GoldSchemas.FactOrders, true, conv, df)
  }

  /** Before validation: one row per input order, in order, with the order's cells
      and its date key. */
  lemma FactOrdersFrameRows(conv: Converter, orders: Table)
    requires FactOrdersFrame(conv, orders).Success?
    ensures var df := FactOrdersFrame(conv, orders).value;
      && df.cols == OrderCols + [PurchaseId]
      && |df.rows| == |orders.rows|
      && (forall i :: 0 <= i < |df.rows| ==> Get(df.rows[i], PurchaseId) == DateIdCell(conv, Get(orders.rows[i], Purchase)))
      && (forall i, c :: 0 <= i < |df.rows| && c in OrderCols ==> Get(df.rows[i], c) == Get(orders.rows[i], c))
  {
    assert PurchaseId !in OrderCols;
  }

  lemma FactOrdersUnfold(conv: Converter, orders: Table)
    requires FactOrders(conv, orders).Success?
    ensures FactOrdersFrame(conv, orders).Success?
    ensures FactOrders(conv, orders) == ValidateTable(GoldSchemas.FactOrders, true, conv, FactOrdersFrame(conv, orders).value)
  {
  }

  lemma PurchaseIdSpec()
    ensures SpecFor(GoldSchemas.FactOrders.columns, PurchaseId) == Some(GoldSchemas.FactOrders.columns[2])
    ensures GoldSchemas.FactOrders.columns[2].ty == TInt
  {
  }

  /** One fact row per input order, in order, each with the order's date key; the
      order columns keep their missing cells, and the table is keyed by `order_id`. */
  lemma FactOrdersRows(conv: Converter, orders: Table)
    requires FactOrders(conv, orders).Success?
    ensures var f := FactOrders(conv, orders).value;
      && f.cols == OrderCols + [PurchaseId]
      && |f.rows| == |orders.rows|
      && GoldSchemas.PrimaryKey(f, "order_id")
      && (forall i :: 0 <= i < |f.rows| ==> Get(f.rows[i], PurchaseId) == DateIdCell(conv, Get(orders.rows[i], Purchase)))
      && (forall i, c :: 0 <= i < |f.rows| && c in OrderCols ==> (Get(f.rows[i], c).None? <==> Get(orders.rows[i], c).None?))
  {
    FactOrdersUnfold(conv, orders);
    PurchaseIdSpec();
    var df := FactOrdersFrame(conv, orders).value;
    FactOrdersFrameRows(conv, orders);
    ValidatedKeyed(GoldSchemas.FactOrders, conv, df, 0, PurchaseId, GoldSchemas.FactOrders.columns[2]);
  }

  /** A missing or unparseable purchase timestamp gives a missing `purchase_date_id`,
      which Gold validation rejects. */
  lemma FactOrdersNullKey(conv: Converter, orders: Table, i: nat)
    requires forall c :: c in OrderCols ==> c in orders.cols
    requires i < |orders.rows| && ToDatetime(conv, Get(orders.rows[i], Purchase)).None?
    ensures FactOrders(conv, orders).Failure?
  {
    var df := FactOrdersFrame(conv, orders).value;
    assert Get(df.rows[i], PurchaseId).None?;
    if FactOrders(conv, orders).Success? {
      ValidatedPresent(GoldSchemas.FactOrders, true, conv, df, 2, i);
      assert false;
    }
  }

  /** The order columns merged onto line items. */
  const OrderRef := ["order_id", "customer_id", Purchase]

  /** `items.merge(orders[["order_id", "customer_id", "order_purchase_timestamp"]], on="order_id", how="left")`. */
  function ItemsWithOrders(items: Table, orders: Table): Result<Table, Error> {
    var ref :- Select(orders, OrderRef);
    LeftJoin(items, ref, "order_id")
  }

  /** Both date keys added, then the purchase timestamp dropped. */
  function AddItemKeys(conv: Converter, joined: Table): Result<Table, Error> {
    var withPurchase := WithColumn(joined, PurchaseId, DateIds(conv, joined, Purchase));
    if Shipping !in withPurchase.cols then Failure(MissingColumn(Shipping))
    else
      var withShipping := WithColumn(withPurchase, ShippingId, DateIds(conv, withPurchase, Shipping));
      Drop(withShipping, Purchase)
  }

  /** `fact_order_items` before validation: items left-merged with their order's
      customer and purchase timestamp, both date keys added, the timestamp dropped. */
  function FactOrderItemsFrame(conv: Converter, items: Table, orders: Table): Result<Table, Error> {
    var joined :- ItemsWithOrders(items, orders);
    AddItemKeys(conv, joined)
  }

  function FactOrderItems(conv: Converter, items: Table, orders: Table): Result<Table, Error> {
    var df :- FactOrderItemsFrame(conv, items, orders);
    ValidateTable(GoldSchemas.FactOrderItems, true, conv, df)
  }

  /** Order `j` is the one line item `i` belongs to. */
  predicate OrderOf(items: Table, orders: Table, i: nat, j: int)
    requires i < |items.rows|
  {
    0 <= j < |orders.rows| && Get(orders.rows[j], "order_id") == Get(items.rows[i], "order_id")
  }

  /** Line item `i` belongs to an order whose customer is known and whose purchase
      timestamp reads as a date with key `key`. */
  predicate Linked(conv: Converter, items: Table, orders: Table, i: nat, key: Cell)
    requires i < |items.rows|
  {
    exists j :: 0 <= j < |orders.rows| && OrderOf(items, orders, i, j)
      && Get(orders.rows[j], "customer_id").Some?
      && ToDatetime(conv, Get(orders.rows[j], Purchase)).Some?
      && key == DateIdCell(conv, Get(orders.rows[j], Purchase))
  }

  /** The columns the merge and the keys overwrite or remove. */
  const ItemDerived := ["customer_id", Purchase, PurchaseId, ShippingId]

  /** The selected order columns keep distinct ids; the merge brings in exactly the
      customer and the purchase timestamp. */
  lemma OrderRefFacts(orders: Table)
    requires Select(orders, OrderRef).Success? && OnDistinct(orders.rows, "order_id")
    ensures var ref := Select(orders, OrderRef).value;
      && OnDistinct(ref.rows, "order_id") && ref.cols == OrderRef
      && ItemsExtra() == Remove(ref.cols, "order_id")
      && (forall j :: 0 <= j < |ref.rows| ==> Get(ref.rows[j], "order_id") == Get(orders.rows[j], "order_id"))
      && (forall j :: 0 <= j < |ref.rows| ==> Get(ref.rows[j], "customer_id") == Get(orders.rows[j], "customer_id"))
      && (forall j :: 0 <= j < |ref.rows| ==> Get(ref.rows[j], Purchase) == Get(orders.rows[j], Purchase))
  {
  }

  function ItemsExtra(): (r: seq<string>)
    ensures forall c :: c in r <==> c == "customer_id" || c == Purchase
  {
    Remove(OrderRef, "order_id")
  }

  /** With distinct order ids, the merge keeps item `i` in place and gives it its
      order's customer and purchase timestamp, or missing cells when it has no order. */
  lemma ItemsWithOrdersRow(items: Table, orders: Table, i: nat)
    requires ItemsWithOrders(items, orders).Success?
    requires OnDistinct(orders.rows, "order_id") && i < |items.rows|
    ensures var jn := ItemsWithOrders(items, orders).value;
      && |jn.rows| == |items.rows|
      && (forall j :: OrderOf(items, orders, i, j) ==>
            Get(jn.rows[i], "customer_id") == Get(orders.rows[j], "customer_id")
            && Get(jn.rows[i], Purchase) == Get(orders.rows[j], Purchase))
      && ((forall j :: 0 <= j < |orders.rows| ==> !OrderOf(items, orders, i, j)) ==>
            Get(jn.rows[i], "customer_id").None? && Get(jn.rows[i], Purchase).None?)
      && (forall c :: c !in ItemDerived ==> Get(jn.rows[i], c) == Get(items.rows[i], c))
  {
    var ref := Select(orders, OrderRef).value;
    OrderRefFacts(orders);
    assert ItemsWithOrders(items, orders) == LeftJoin(items, ref, "order_id");
    ItemsMergeRow(items, ref, orders, i);
  }

  lemma ItemsMergeRow(items: Table, ref: Table, orders: Table, i: nat)
    requires "order_id" in items.cols && "order_id" in ref.cols && i < |items.rows|
    requires OnDistinct(ref.rows, "order_id") && |ref.rows| == |orders.rows|
    requires ItemsExtra() == Remove(ref.cols, "order_id")
    requires forall j :: 0 <= j < |ref.rows| ==> Get(ref.rows[j], "order_id") == Get(orders.rows[j], "order_id")
    requires forall j :: 0 <= j < |ref.rows| ==> Get(ref.rows[j], "customer_id") == Get(orders.rows[j], "customer_id")
    requires forall j :: 0 <= j < |ref.rows| ==> Get(ref.rows[j], Purchase) == Get(orders.rows[j], Purchase)
    ensures var jn := LeftJoin(items, ref, "order_id").value;
      && |jn.rows| == |items.rows|
      && (forall j :: OrderOf(items, orders, i, j) ==>
            Get(jn.rows[i], "customer_id") == Get(orders.rows[j], "customer_id")
            && Get(jn.rows[i], Purchase) == Get(orders.rows[j], Purchase))
      && ((forall j :: 0 <= j < |orders.rows| ==> !OrderOf(items, orders, i, j)) ==>
            Get(jn.rows[i], "customer_id").None? && Get(jn.rows[i], Purchase).None?)
      && (forall c :: c !in ItemDerived ==> Get(jn.rows[i], c) == Get(items.rows[i], c))
  {
    var k := Get(items.rows[i], "order_id");
    var m := MatchOf(ref.rows, "order_id", k);
    LeftJoinUnique(items, ref, "order_id");
    var row := LeftJoin(items, ref, "order_id").value.rows[i];
    assert row == Extend(items.rows[i], m, ItemsExtra());
    MatchOfUnique(ref.rows, "order_id", k);
    ExtendItem(items.rows[i], m);
    if forall j :: 0 <= j < |orders.rows| ==> !OrderOf(items, orders, i, j) {
      forall j | 0 <= j < |ref.rows| ensures Get(ref.rows[j], "order_id") != k {
        assert !OrderOf(items, orders, i, j);
      }
      assert m == map[];
    }
  }

  lemma ExtendItem(l: Row, m: Row)
    ensures Get(Extend(l, m, ItemsExtra()), "customer_id") == Get(m, "customer_id")
    ensures Get(Extend(l, m, ItemsExtra()), Purchase) == Get(m, Purchase)
    ensures forall c :: c !in ItemDerived ==> Get(Extend(l, m, ItemsExtra()), c) == Get(l, c)
  {
  }

  /** The keys are the date keys of the row's own timestamps; the purchase timestamp
      is gone and every other cell is kept. */
  lemma AddItemKeysRow(conv: Converter, joined: Table, i: nat)
    requires AddItemKeys(conv, joined).Success? && i < |joined.rows|
    ensures var df := AddItemKeys(conv, joined).value;
      && |df.rows| == |joined.rows|
      && Purchase !in df.cols && Purchase !in df.rows[i]
      && Get(df.rows[i], PurchaseId) == DateIdCell(conv, Get(joined.rows[i], Purchase))
      && Get(df.rows[i], ShippingId) == DateIdCell(conv, Get(joined.rows[i], Shipping))
      && (forall c :: c != Purchase && c != PurchaseId && c != ShippingId ==> Get(df.rows[i], c) == Get(joined.rows[i], c))
  {
  }

  /** The cells of line item `i` after the merge, given distinct order ids: the order's
      customer and purchase key when the item has an order, missing cells otherwise; the
      shipping key of the item's own shipping date; the item's other cells unchanged. */
  lemma FactOrderItemsRow(conv: Converter, items: Table, orders: Table, i: nat)
    requires FactOrderItemsFrame(conv, items, orders).Success?
    requires OnDistinct(orders.rows, "order_id") && i < |items.rows|
    ensures var df := FactOrderItemsFrame(conv, items, orders).value;
      && |df.rows| == |items.rows|
      && Purchase !in df.cols && Purchase !in df.rows[i]
      && (forall j :: OrderOf(items, orders, i, j) ==>
            Get(df.rows[i], "customer_id") == Get(orders.rows[j], "customer_id")
            && Get(df.rows[i], PurchaseId) == DateIdCell(conv, Get(orders.rows[j], Purchase)))
      && ((forall j :: 0 <= j < |orders.rows| ==> !OrderOf(items, orders, i, j)) ==>
            Get(df.rows[i], "customer_id").None? && Get(df.rows[i], PurchaseId).None?)
      && Get(df.rows[i], ShippingId) == DateIdCell(conv, Get(items.rows[i], Shipping))
      && (forall c :: c !in ItemDerived ==> Get(df.rows[i], c) == Get(items.rows[i], c))
  {
    var jn := ItemsWithOrders(items, orders).value;
    assert FactOrderItemsFrame(conv, items, orders) == AddItemKeys(conv, jn);
    ItemsWithOrdersRow(items, orders, i);
    AddItemKeysRow(conv, jn, i);
    ItemDerivedMembers();
  }

  lemma ItemDerivedMembers()
    ensures forall c :: c in ItemDerived <==> c == "customer_id" || c == Purchase || c == PurchaseId || c == ShippingId
  {
  }

  /** The spec a column resolves to is the first one with its name. */
  lemma {:induction false} SpecForAt(specs: seq<ColumnSpec>, c: string, n: nat)
    requires n < |specs| && specs[n].name == c
    requires forall k :: 0 <= k < n ==> specs[k].name != c
    ensures SpecFor(specs, c) == Some(specs[n])
  {
    if n > 0 {
      assert forall k :: 0 <= k < n - 1 ==> specs[1..][k].name != c by {
        forall k | 0 <= k < n - 1 ensures specs[1..][k].name != c {
          assert specs[1..][k] == specs[k + 1];
        }
      }
      SpecForAt(specs[1..], c, n - 1);
    }
  }

  lemma ItemPurchaseSpec()
    ensures SpecFor(GoldSchemas.FactOrderItems.columns, PurchaseId) == Some(GoldSchemas.FactOrderItems.columns[8])
    ensures GoldSchemas.FactOrderItems.columns[8].ty == TInt
  {
    SpecForAt(GoldSchemas.FactOrderItems.columns, PurchaseId, 8);
  }

  lemma ItemShippingSpec()
    ensures SpecFor(GoldSchemas.FactOrderItems.columns, ShippingId) == Some(GoldSchemas.FactOrderItems.columns[9])
    ensures GoldSchemas.FactOrderItems.columns[9].ty == TInt
  {
    SpecForAt(GoldSchemas.FactOrderItems.columns, ShippingId, 9);
  }

  lemma FactOrderItemsUnfold(conv: Converter, items: Table, orders: Table)
    requires FactOrderItems(conv, items, orders).Success?
    ensures FactOrderItemsFrame(conv, items, orders).Success?
    ensures FactOrderItems(conv, items, orders)
            == ValidateTable(GoldSchemas.FactOrderItems, true, conv, FactOrderItemsFrame(conv, items, orders).value)
  {
  }

  /** Validation of line items with coercion: the keys already of integer type stay
      as they are, and the customer and purchase key are present in every row. */
  lemma ItemsValidated(s: TableSchema, conv: Converter, df: Table)
    requires ValidateTable(s, true, conv, df).Success?
    requires 9 < |s.columns|
    requires s.columns[4].name == "customer_id" && !s.columns[4].nullable
    requires s.columns[8].name == PurchaseId && !s.columns[8].nullable
    requires SpecFor(s.columns, PurchaseId) == Some(s.columns[8]) && s.columns[8].ty == TInt
    requires SpecFor(s.columns, ShippingId) == Some(s.columns[9]) && s.columns[9].ty == TInt
    requires forall i :: 0 <= i < |df.rows| ==> Typed(TInt, Get(df.rows[i], PurchaseId)) && Typed(TInt, Get(df.rows[i], ShippingId))
    ensures var f := ValidateTable(s, true, conv, df).value;
      && f.cols == df.cols && |f.rows| == |df.rows|
      && forall i :: 0 <= i < |f.rows| ==>
           && Get(df.rows[i], "customer_id").Some? && Get(df.rows[i], PurchaseId).Some?
           && Get(f.rows[i], PurchaseId) == Get(df.rows[i], PurchaseId)
           && Get(f.rows[i], ShippingId) == Get(df.rows[i], ShippingId)
  {
    var f := ValidateTable(s, true, conv, df).value;
    ValidateShape(s, true, conv, df);
    AcceptsKey(s, f, 4);
    AcceptsKey(s, f, 8);
    forall i | 0 <= i < |f.rows|
      ensures Get(f.rows[i], PurchaseId) == Get(df.rows[i], PurchaseId)
      ensures Get(f.rows[i], ShippingId) == Get(df.rows[i], ShippingId)
    {
      ValidateKeepsTyped(s, conv, df, i, PurchaseId, s.columns[8]);
      ValidateKeepsTyped(s, conv, df, i, ShippingId, s.columns[9]);
    }
  }

  /** A validated line-item fact: one row per item, in order, without the purchase
      timestamp; every item belongs to an order whose customer is known and whose
      purchase timestamp reads as a date, and carries that order's purchase key and the
      key of its own shipping date. */
  lemma FactOrderItemsRows(conv: Converter, items: Table, orders: Table)
    requires FactOrderItems(conv, items, orders).Success?
    requires OnDistinct(orders.rows, "order_id")
    ensures var f := FactOrderItems(conv, items, orders).value;
      && |f.rows| == |items.rows| && Purchase !in f.cols
      && forall i :: 0 <= i < |f.rows| ==>
           && Linked(conv, items, orders, i, Get(f.rows[i], PurchaseId))
           && Get(f.rows[i], ShippingId) == DateIdCell(conv, Get(items.rows[i], Shipping))
  {
    FactOrderItemsUnfold(conv, items, orders);
    var df := FactOrderItemsFrame(conv, items, orders).value;
    var f := FactOrderItems(conv, items, orders).value;
    FrameIs(conv, items, orders);
    ItemsWithOrdersLength(items, orders);
    FrameKeysTyped(conv, items, orders);
    ItemPurchaseSpec();
    ItemShippingSpec();
    ItemsValidated(GoldSchemas.FactOrderItems, conv, df);
    ItemsMatched(conv, items, orders, df, f);
  }

  lemma ItemsMatched(conv: Converter, items: Table, orders: Table, df: Table, f: Table)
    requires ItemsWithOrders(items, orders).Success?
    requires AddItemKeys(conv, ItemsWithOrders(items, orders).value) == Success(df)
    requires OnDistinct(orders.rows, "order_id")
    requires |ItemsWithOrders(items, orders).value.rows| == |items.rows|
    requires |df.rows| == |items.rows| && |f.rows| == |df.rows|
    requires forall i :: 0 <= i < |f.rows| ==>
           && Get(df.rows[i], "customer_id").Some? && Get(df.rows[i], PurchaseId).Some?
           && Get(f.rows[i], PurchaseId) == Get(df.rows[i], PurchaseId)
           && Get(f.rows[i], ShippingId) == Get(df.rows[i], ShippingId)
    ensures forall i :: 0 <= i < |f.rows| ==>
           && Linked(conv, items, orders, i, Get(f.rows[i], PurchaseId))
           && Get(f.rows[i], ShippingId) == DateIdCell(conv, Get(items.rows[i], Shipping))
  {
    forall i | 0 <= i < |f.rows|
      ensures Linked(conv, items, orders, i, Get(f.rows[i], PurchaseId))
      ensures Get(f.rows[i], ShippingId) == DateIdCell(conv, Get(items.rows[i], Shipping))
    {
      ItemHasOrder(conv, items, orders, i);
    }
  }

  lemma FrameKeysTyped(conv: Converter, items: Table, orders: Table)
    requires FactOrderItemsFrame(conv, items, orders).Success?
    ensures var df := FactOrderItemsFrame(conv, items, orders).value;
      forall i :: 0 <= i < |df.rows| ==> Typed(TInt, Get(df.rows[i], PurchaseId)) && Typed(TInt, Get(df.rows[i], ShippingId))
  {
    var jn := ItemsWithOrders(items, orders).value;
    forall i | 0 <= i < |jn.rows|
      ensures Typed(TInt, Get(AddItemKeys(conv, jn).value.rows[i], PurchaseId))
      ensures Typed(TInt, Get(AddItemKeys(conv, jn).value.rows[i], ShippingId))
    {
      AddItemKeysRow(conv, jn, i);
    }
  }

  /** A merged item whose customer cell is present has an order with that customer. */
  lemma ItemOrderExists(items: Table, orders: Table, i: nat)
    requires ItemsWithOrders(items, orders).Success?
    requires OnDistinct(orders.rows, "order_id") && i < |items.rows|
    requires |ItemsWithOrders(items, orders).value.rows| == |items.rows|
    requires Get(ItemsWithOrders(items, orders).value.rows[i], "customer_id").Some?
    ensures exists j :: (OrderOf(items, orders, i, j)
      && Get(orders.rows[j], "customer_id").Some?
      && Get(ItemsWithOrders(items, orders).value.rows[i], Purchase) == Get(orders.rows[j], Purchase))
  {
    ItemsWithOrdersRow(items, orders, i);
    var j :| OrderOf(items, orders, i, j);
  }

  /** A merged item whose customer cell and purchase key are present has an order
      whose purchase timestamp reads as a date and gives that key. */
  lemma ItemHasOrder(conv: Converter, items: Table, orders: Table, i: nat)
    requires ItemsWithOrders(items, orders).Success?
    requires AddItemKeys(conv, ItemsWithOrders(items, orders).value).Success?
    requires OnDistinct(orders.rows, "order_id") && i < |items.rows|
    requires |ItemsWithOrders(items, orders).value.rows| == |items.rows|
    requires Get(AddItemKeys(conv, ItemsWithOrders(items, orders).value).value.rows[i], "customer_id").Some?
    requires Get(AddItemKeys(conv, ItemsWithOrders(items, orders).value).value.rows[i], PurchaseId).Some?
    ensures var df := AddItemKeys(conv, ItemsWithOrders(items, orders).value).value;
      && Linked(conv, items, orders, i, Get(df.rows[i], PurchaseId))
      && Get(df.rows[i], ShippingId) == DateIdCell(conv, Get(items.rows[i], Shipping))
  {
    var jn := ItemsWithOrders(items, orders).value;
    AddItemKeysRow(conv, jn, i);
    ItemOrderExists(items, orders, i);
    ItemsWithOrdersKept(items, orders, i, Shipping);
  }

  lemma FrameIs(conv: Converter, items: Table, orders: Table)
    requires FactOrderItemsFrame(conv, items, orders).Success?
    ensures ItemsWithOrders(items, orders).Success?
    ensures FactOrderItemsFrame(conv, items, orders) == AddItemKeys(conv, ItemsWithOrders(items, orders).value)
  {
  }

  lemma ItemsWithOrdersLength(items: Table, orders: Table)
    requires ItemsWithOrders(items, orders).Success? && OnDistinct(orders.rows, "order_id")
    ensures |ItemsWithOrders(items, orders).value.rows| == |items.rows|
  {
    OrderRefFacts(orders);
    LeftJoinUnique(items, Select(orders, OrderRef).value, "order_id");
  }

  lemma ItemsWithOrdersKept(items: Table, orders: Table, i: nat, c: string)
    requires ItemsWithOrders(items, orders).Success?
    requires OnDistinct(orders.rows, "order_id") && i < |items.rows| && c !in ItemDerived
    ensures |ItemsWithOrders(items, orders).value.rows| == |items.rows|
    ensures Get(ItemsWithOrders(items, orders).value.rows[i], c) == Get(items.rows[i], c)
  {
    ItemsWithOrdersRow(items, orders, i);
  }

  // ---------------------------------------------------------------------------
  // Auxiliary tables

  function TableOrderPayments(conv: Converter, t: Table): Result<Table, Error> {
    ValidateTable(GoldSchemas.OrderPayments, true, conv, t)
  }

  /** Payments pass through unchanged: a table already of the Gold types comes back
      as it is exactly when no `order_id` is missing and, since coercion to `int64`
      fails on a missing value, neither integer column has a missing cell. */
  lemma PaymentsPassThrough(conv: Converter, t: Table)
    requires WellFormed(t)
    requires ColumnsPresent(GoldSchemas.OrderPayments, t) && TableTyped(GoldSchemas.OrderPayments, t)
    ensures TableOrderPayments(conv, t).Success? <==>
              && GoldSchemas.NonNull(t, "order_id")
              && GoldSchemas.NonNull(t, "payment_sequential")
              && GoldSchemas.NonNull(t, "payment_installments")
    ensures TableOrderPayments(conv, t).Success? ==> TableOrderPayments(conv, t).value == t
  {
    if GoldSchemas.NonNull(t, "payment_sequential") && GoldSchemas.NonNull(t, "payment_installments") {
      PaymentsSettled(conv, t);
    } else if !GoldSchemas.NonNull(t, "payment_sequential") {
      PaymentsIntMissing(conv, t, 1);
    } else {
      PaymentsIntMissing(conv, t, 3);
    }
  }

  lemma PaymentsSettled(conv: Converter, t: Table)
    requires ColumnsPresent(GoldSchemas.OrderPayments, t) && TableTyped(GoldSchemas.OrderPayments, t)
    requires GoldSchemas.NonNull(t, "payment_sequential") && GoldSchemas.NonNull(t, "payment_installments")
    ensures TableOrderPayments(conv, t)
            == if GoldSchemas.NonNull(t, "order_id") then Success(t) else Failure(SchemaError("check failed"))
  {
    var s := GoldSchemas.OrderPayments;
    var cs := s.columns;
    assert TableSettled(s, t) by {
      forall i, sp | 0 <= i < |t.rows| && sp in cs ensures Settled(sp.ty, Get(t.rows[i], sp.name)) {
        assert Typed(sp.ty, Get(t.rows[i], sp.name));
        assert sp == cs[0] || sp == cs[1] || sp == cs[2] || sp == cs[3] || sp == cs[4];
      }
    }
    ValidateTyped(s, true, conv, t);
    GoldSchemas.OrderPaymentsRule(t);
  }

  /** A missing payment counter makes coercion, and so the payments table, fail. */
  lemma PaymentsIntMissing(conv: Converter, t: Table, k: nat)
    requires WellFormed(t) && ColumnsPresent(GoldSchemas.OrderPayments, t)
    requires k == 1 || k == 3
    requires !GoldSchemas.NonNull(t, GoldSchemas.OrderPayments.columns[k].name)
    ensures TableOrderPayments(conv, t).Failure?
  {
    var cs := GoldSchemas.OrderPayments.columns;
    var c := cs[k].name;
    var i :| 0 <= i < |t.rows| && Get(t.rows[i], c).None?;
    assert cs[k] in cs;
    assert c in t.rows[i];
    assert SpecFor(cs, c) == Some(cs[k]);
    CoerceMissingInt(GoldSchemas.OrderPayments, conv, t, i, c);
  }

  /** Payments carry no uniqueness constraint: repeating a row of an accepted table
      is accepted too, and repeats the validated row. */
  lemma PaymentsAllowRepeats(conv: Converter, t: Table, i: nat)
    requires TableOrderPayments(conv, t).Success? && i < |t.rows|
    ensures TableOrderPayments(conv, WithCopy(t, i)) == Success(WithCopy(TableOrderPayments(conv, t).value, i))
  {
    ValidateAcceptsCopy(GoldSchemas.OrderPayments, true, conv, t, i);
  }

  const ReviewCols := [
    "review_id", "order_id", "review_score", "review_creation_date", "review_answer_timestamp",
    "review_comment_title", "review_comment_message"]

  /** `[c for c in want if c in have]`. */
  function Present(want: seq<string>, have: seq<string>): (r: seq<string>)
    ensures Subseq(r, want)
    ensures forall c :: c in r <==> c in want && c in have
  {
    if want == [] then []
    else if want[0] in have then [want[0]] + Present(want[1..], have)
    else Present(want[1..], have)
  }

  /** When every wanted column is there, the filter keeps the list as it is. */
  lemma {:induction false} PresentAll(want: seq<string>, have: seq<string>)
    requires forall c :: c in want ==> c in have
    ensures Present(want, have) == want
  {
    if want != [] {
      assert want[0] in want;
      PresentAll(want[1..], have);
      assert want == [want[0]] + want[1..];
    }
  }

  /** The review columns that are present, in the listed order. */
  function ReviewsFrame(t: Table): Table {
    Select(t, Present(ReviewCols, t.cols)).value
  }

  function TableOrderReviews(conv: Converter, t: Table): Result<Table, Error> {
    ValidateTable(GoldSchemas.OrderReviews, true, conv, ReviewsFrame(t))
  }

  /** The frame keeps only listed columns, in the listed order, with the input's cells
      for them and nothing else. */
  lemma ReviewsFrameColumns(t: Table)
    ensures var df := ReviewsFrame(t);
      && df.cols == Present(ReviewCols, t.cols) && |df.rows| == |t.rows|
      && (forall i, c :: 0 <= i < |t.rows| && c in df.cols ==> Get(df.rows[i], c) == Get(t.rows[i], c))
      && (forall i, c :: 0 <= i < |t.rows| && c !in df.cols ==> Get(df.rows[i], c).None?)
  {
  }

  /** A schema whose leading columns are named `names` accepts only tables that have
      every one of them, and keeps the table's columns. */
  lemma ValidatedNames(s: TableSchema, conv: Converter, t: Table, names: seq<string>)
    requires ValidateTable(s, true, conv, t).Success? && |names| <= |s.columns|
    requires forall k :: 0 <= k < |names| ==> s.columns[k].name == names[k]
    ensures ValidateTable(s, true, conv, t).value.cols == t.cols
    ensures forall c :: c in names ==> c in t.cols
  {
    ValidateShape(s, true, conv, t);
    forall c | c in names ensures c in t.cols {
      var k :| 0 <= k < |names| && names[k] == c;
      assert s.columns[k] in s.columns;
    }
  }

  lemma ReviewNames()
    ensures |ReviewCols| <= |GoldSchemas.OrderReviews.columns|
    ensures forall k :: 0 <= k < |ReviewCols| ==> GoldSchemas.OrderReviews.columns[k].name == ReviewCols[k]
  {
  }

  /** Since the Gold schema requires every listed column, a validated reviews table
      has exactly the seven listed columns, in the listed order. */
  lemma ReviewsColumns(conv: Converter, t: Table)
    requires TableOrderReviews(conv, t).Success?
    ensures TableOrderReviews(conv, t).value.cols == ReviewCols
    ensures forall c :: c in ReviewCols ==> c in t.cols
  {
    var df := ReviewsFrame(t);
    ReviewNames();
    ValidatedNames(GoldSchemas.OrderReviews, conv, df, ReviewCols);
    ReviewsFrameColumns(t);
    PresentAll(ReviewCols, t.cols);
  }

  // ---------------------------------------------------------------------------
  // The calendar dimension of `build_gold`

  predicate Ascending(s: seq<int>) {
    forall i, j :: 0 <= i < j < |s| ==> s[i] < s[j]
  }

  /** `x` added to an ascending key list, unless it is there already. */
  function InsertKey(s: seq<int>, x: int): (r: seq<int>)
    requires Ascending(s)
    ensures Ascending(r)
    ensures forall k :: k in r <==> k in s || k == x
  {
    if s == [] then [x]
    else if x < s[0] then [x] + s
    else if x == s[0] then s
    else
      var rest := InsertKey(s[1..], x);
      assert forall k :: k in rest ==> s[0] < k by {
        forall k | k in rest ensures s[0] < k {
          if k in s[1..] {
            var m :| 0 <= m < |s[1..]| && s[1..][m] == k;
            assert s[m + 1] == k;
          }
        }
      }
      assert forall k :: k in s <==> k == s[0] || k in s[1..] by {
        assert s == [s[0]] + s[1..];
      }
      var r := [s[0]] + rest;
      assert Ascending(r) by {
        forall i, j | 0 <= i < j < |r| ensures r[i] < r[j] {
          if i == 0 {
            assert r[j] == rest[j - 1] && rest[j - 1] in rest;
          } else {
            assert r[i] == rest[i - 1] && r[j] == rest[j - 1];
          }
        }
      }
      r
  }

  /** `unique()` then `sort_values()` on integer keys: each key once, ascending. */
  function SortedKeys(ks: seq<int>): (r: seq<int>)
    ensures Ascending(r)
    ensures forall k :: k in r <==> k in ks
  {
    if ks == [] then []
    else
      var init := ks[..|ks| - 1];
      assert ks == init + [ks[|ks| - 1]];
      InsertKey(SortedKeys(init), ks[|ks| - 1])
  }

  /** The tail of an ascending list holds exactly its members other than the head. */
  lemma AscendingTail(a: seq<int>)
    requires Ascending(a) && a != []
    ensures forall k :: k in a[1..] <==> k in a && k != a[0]
    ensures forall k :: k in a ==> a[0] <= k
  {
    assert a == [a[0]] + a[1..];
    forall k | k in a[1..] ensures k != a[0] {
      var m :| 0 <= m < |a[1..]| && a[1..][m] == k;
      assert a[m + 1] == k;
    }
  }

  /** An ascending list is determined by its members: the sorted key list is the only
      ascending arrangement of the distinct keys. */
  lemma {:induction false} AscendingUnique(a: seq<int>, b: seq<int>)
    requires Ascending(a) && Ascending(b)
    requires forall k :: k in a <==> k in b
    ensures a == b
  {
    if a != [] { assert a[0] in a; }
    if b != [] { assert b[0] in b; }
    if a != [] && b != [] {
      AscendingTail(a);
      AscendingTail(b);
      assert a[0] == b[0];
      AscendingUnique(a[1..], b[1..]);
      assert a == [a[0]] + a[1..] && b == [b[0]] + b[1..];
    }
  }

  /** `dropna().astype("Int64")` then the `%Y%m%d` parse with `dropna(subset=["date"])`:
      the integer keys, in order, that name a real calendar date. */
  function ValidKeys(cells: seq<Cell>): (r: seq<int>)
    ensures forall k :: k in r <==> Some(Int(k)) in cells && KeyDate(k).Some?
  {
    if cells == [] then []
    else
      assert cells == [cells[0]] + cells[1..];
      (match cells[0]
       case Some(Int(k)) => if KeyDate(k).Some? then [k] else []
       case _ => []) + ValidKeys(cells[1..])
  }

  /** The dates of the calendar dimension, sorted by key. */
  function CalendarDates(cells: seq<Cell>): (ds: seq<Date>)
    ensures forall i :: 0 <= i < |ds| ==> ValidDate(ds[i]) && 1000 <= ds[i].year <= 9999
  {
    var ks := SortedKeys(ValidKeys(cells));
    seq(|ks|, i requires 0 <= i < |ks| => KeyDate(ks[i]).value)
  }

  const DateCols := ["date_id", "date", "year", "month", "day"]

  /** One calendar row: the key, the midnight timestamp and the date's components. */
  function CalendarRow(d: Date): Row {
    map["date_id" := Some(Int(DateKey(d))), "date" := Some(Time(Midnight(d))),
        "year" := Some(Int(d.year)), "month" := Some(Int(d.month)), "day" := Some(Int(d.day))]
  }

  /** The `dim_date` table `build_gold` builds from the collected date keys. */
  function DimDateTable(cells: seq<Cell>): Table {
    var ds := CalendarDates(cells);
    Table(DateCols, seq(|ds|, i requires 0 <= i < |ds| => CalendarRow(ds[i])))
  }

  /** The integer in column `c`, read as 0 when it is not an integer. */
  function IntAt(r: Row, c: string): int {
    match Get(r, c)
    case Some(Int(k)) => k
    case _ => 0
  }

  /** A calendar row holds a real date's key, midnight and components. */
  lemma CalendarRowFacts(d: Date)
    requires ValidDate(d)
    ensures var r := CalendarRow(d);
      && (forall c :: c in DateCols ==> c in r)
      && Date(IntAt(r, "year"), IntAt(r, "month"), IntAt(r, "day")) == d
      && Get(r, "date_id") == Some(Int(d.year * 10000 + d.month * 100 + d.day))
      && Get(r, "date") == Some(Time(Midnight(d)))
      && IntAt(r, "date_id") == DateKey(d)
  {
  }

  /** A calendar row has every Gold column, of its declared type. */
  lemma CalendarRowTyped(d: Date)
    ensures forall sp :: sp in GoldSchemas.DimDate.columns ==> Settled(sp.ty, Get(CalendarRow(d), sp.name))
  {
  }

  /** Row `i` is the row of the `i`-th sorted key's date. */
  lemma CalendarAt(cells: seq<Cell>, i: nat)
    requires i < |DimDateTable(cells).rows|
    ensures var ks := SortedKeys(ValidKeys(cells));
      && |DimDateTable(cells).rows| == |ks|
      && KeyDate(ks[i]).Some?
      && DimDateTable(cells).rows[i] == CalendarRow(KeyDate(ks[i]).value)
      && IntAt(DimDateTable(cells).rows[i], "date_id") == ks[i]
  {
    var ks := SortedKeys(ValidKeys(cells));
    assert ks[i] in ks;
    KeyDateInverse(ks[i]);
    CalendarRowFacts(KeyDate(ks[i]).value);
  }

  /** A calendar row is a real date whose `date_id` is `year*10000 + month*100 + day`
      and whose `date` is that day's midnight. */
  predicate CalendarConsistent(r: Row) {
    var d := Date(IntAt(r, "year"), IntAt(r, "month"), IntAt(r, "day"));
    && (forall c :: c in DateCols ==> c in r)
    && ValidDate(d)
    && Get(r, "date_id") == Some(Int(d.year * 10000 + d.month * 100 + d.day))
    && Get(r, "date") == Some(Time(Midnight(d)))
  }

  /** Every row of the calendar dimension is consistent. */
  lemma DimDateRows(cells: seq<Cell>)
    ensures DimDateTable(cells).cols == DateCols
    ensures forall i :: 0 <= i < |DimDateTable(cells).rows| ==> CalendarConsistent(DimDateTable(cells).rows[i])
  {
    var t := DimDateTable(cells);
    forall i | 0 <= i < |t.rows| ensures CalendarConsistent(t.rows[i]) {
      CalendarAt(cells, i);
      var ks := SortedKeys(ValidKeys(cells));
      CalendarRowConsistent(KeyDate(ks[i]).value);
    }
  }

  lemma CalendarRowConsistent(d: Date)
    requires ValidDate(d)
    ensures CalendarConsistent(CalendarRow(d))
  {
    CalendarRowFacts(d);
  }

  /** The calendar keys are strictly ascending, and a key has a row exactly when it is
      among the collected keys and names a real calendar date. */
  lemma DimDateKeys(cells: seq<Cell>)
    ensures var t := DimDateTable(cells);
      && (forall i, j :: 0 <= i < j < |t.rows| ==> IntAt(t.rows[i], "date_id") < IntAt(t.rows[j], "date_id"))
      && (forall k :: (exists i :: 0 <= i < |t.rows| && IntAt(t.rows[i], "date_id") == k)
                      <==> Some(Int(k)) in cells && KeyDate(k).Some?)
  {
    var ks := SortedKeys(ValidKeys(cells));
    var t := DimDateTable(cells);
    forall i | 0 <= i < |t.rows| ensures IntAt(t.rows[i], "date_id") == ks[i] {
      CalendarAt(cells, i);
    }
    forall k | Some(Int(k)) in cells && KeyDate(k).Some?
      ensures exists i :: 0 <= i < |t.rows| && IntAt(t.rows[i], "date_id") == k
    {
      var i :| 0 <= i < |ks| && ks[i] == k;
      assert IntAt(t.rows[i], "date_id") == k;
    }
  }

  /** Validating the calendar dimension always succeeds and changes nothing. */
  lemma DimDateValid(conv: Converter, cells: seq<Cell>)
    ensures ValidateTable(GoldSchemas.DimDate, true, conv, DimDateTable(cells)) == Success(DimDateTable(cells))
  {
    var t := DimDateTable(cells);
    DimDateRows(cells);
    DimDateKeys(cells);
    DimDateTyped(cells);
    SettledTyped(GoldSchemas.DimDate, t);
    GoldSchemas.DimDateRule(t);
    assert OnDistinct(t.rows, "date_id") by {
      forall i, j | 0 <= i < j < |t.rows| ensures Get(t.rows[i], "date_id") != Get(t.rows[j], "date_id") {
        assert IntAt(t.rows[i], "date_id") < IntAt(t.rows[j], "date_id");
      }
    }
    ValidateTyped(GoldSchemas.DimDate, true, conv, t);
  }

  lemma DimDateTyped(cells: seq<Cell>)
    ensures ColumnsPresent(GoldSchemas.DimDate, DimDateTable(cells))
    ensures TableSettled(GoldSchemas.DimDate, DimDateTable(cells))
  {
    var t := DimDateTable(cells);
    forall i | 0 <= i < |t.rows|
      ensures forall sp :: sp in GoldSchemas.DimDate.columns ==> Settled(sp.ty, Get(t.rows[i], sp.name))
    {
      CalendarAt(cells, i);
      CalendarRowTyped(KeyDate(SortedKeys(ValidKeys(cells))[i]).value);
    }
  }

  /* ---------- dim_date_from_orders ---------- */

  /** `unique()`: each cell once, in order of first appearance. */
  function UniqueCells(s: seq<Cell>): (r: seq<Cell>)
    ensures forall c :: c in r <==> c in s
    ensures forall i, j :: 0 <= i < j < |r| ==> r[i] != r[j]
  {
    if s == [] then []
    else
      var init := UniqueCells(s[..|s| - 1]);
      var last := s[|s| - 1];
      assert s == s[..|s| - 1] + [last];
      if last in init then init else init + [last]
  }

  /** `dropna()`: the present cells, in order. */
  function PresentCells(s: seq<Cell>): (r: seq<Cell>)
    ensures forall c :: c in r <==> c in s && c.Some?
  {
    if s == [] then []
    else
      assert s == [s[0]] + s[1..];
      (if s[0].Some? then [s[0]] else []) + PresentCells(s[1..])
  }

  /** `to_datetime(..., errors="coerce")` then `dropna()`: the parsed timestamps, in order. */
  function Timestamps(conv: Converter, s: seq<Cell>): (r: seq<Timestamp>)
    ensures forall ts :: ts in r <==> exists c :: c in s && ToDatetime(conv, c) == Some(ts)
  {
    if s == [] then []
    else
      assert s == [s[0]] + s[1..];
      (match ToDatetime(conv, s[0]) case Some(ts) => [ts] case None => []) + Timestamps(conv, s[1..])
  }

  const DayCols := ["date", "year", "month", "day", "date_id"]

  /** One `dim_date_from_orders` row: the timestamp itself, its components and its key. */
  function DayRow(ts: Timestamp): Row {
    map["date" := Some(Time(ts)), "year" := Some(Int(ts.date.year)), "month" := Some(Int(ts.date.month)),
        "day" := Some(Int(ts.date.day)), "date_id" := Some(Int(DateKey(ts.date)))]
  }

  function DayKey(r: Row): Cell { Get(r, "date_id") }

  /** The rows of `dim_date_from_orders` before `drop_duplicates(subset=["date_id"])`. */
  function DayRows(conv: Converter, orders: Table): seq<Row> {
    var ts := Timestamps(conv, UniqueCells(PresentCells(Column(orders, Purchase))));
    seq(|ts|, i requires 0 <= i < |ts| => DayRow(ts[i]))
  }

  /** A calendar dimension derived from the purchase timestamps of the orders: one row
      per purchase day, holding the first purchase timestamp of that day. */
  function DimDateFromOrders(conv: Converter, orders: Table): Result<Table, Error> {
    if Purchase !in orders.cols then Failure(MissingColumn(Purchase))
    else
      var t := Table(DayCols, DedupFirst(DayRows(conv, orders), DayKey));
      ValidateTable(GoldSchemas.DimDate, true, conv, t)
  }

  /** A row built from timestamp `ts`. */
  predicate DayOf(r: Row, ts: Timestamp) {
    && (forall c :: c in DayCols ==> c in r)
    && Get(r, "date") == Some(Time(ts))
    && Get(r, "year") == Some(Int(ts.date.year))
    && Get(r, "month") == Some(Int(ts.date.month))
    && Get(r, "day") == Some(Int(ts.date.day))
    && Get(r, "date_id") == Some(Int(DateKey(ts.date)))
  }

  /** A row built from the purchase timestamp of some order. */
  predicate FromPurchase(conv: Converter, orders: Table, r: Row) {
    exists i :: 0 <= i < |orders.rows| && PurchaseOf(conv, orders, i).Some? && DayOf(r, PurchaseOf(conv, orders, i).value)
  }

  /** The parsed purchase timestamp of order `i`. */
  function PurchaseOf(conv: Converter, orders: Table, i: nat): Option<Timestamp>
    requires i < |orders.rows|
  {
    ToDatetime(conv, Get(orders.rows[i], Purchase))
  }

  /** Some row of `t` has `date_id` equal to `k`. */
  predicate HasDay(t: Table, k: Cell) {
    exists j :: 0 <= j < |t.rows| && Get(t.rows[j], "date_id") == k
  }

  lemma DayRowsFacts(conv: Converter, orders: Table)
    ensures forall r :: r in DayRows(conv, orders) ==> FromPurchase(conv, orders, r)
    ensures forall i :: 0 <= i < |orders.rows| && DateIdCell(conv, Get(orders.rows[i], Purchase)).Some? ==>
              DateIdCell(conv, Get(orders.rows[i], Purchase)) in KeySet(DayRows(conv, orders), DayKey)
  {
    var col := Column(orders, Purchase);
    var ts := Timestamps(conv, UniqueCells(PresentCells(col)));
    var rows := DayRows(conv, orders);
    forall r | r in rows ensures FromPurchase(conv, orders, r) {
      var k :| 0 <= k < |rows| && rows[k] == r;
      assert ts[k] in ts;
      var c :| c in UniqueCells(PresentCells(col)) && ToDatetime(conv, c) == Some(ts[k]);
      var i :| 0 <= i < |col| && col[i] == c;
      assert PurchaseOf(conv, orders, i) == Some(ts[k]);
      DayRowFacts(ts[k]);
    }
    forall i | 0 <= i < |orders.rows| && DateIdCell(conv, Get(orders.rows[i], Purchase)).Some?
      ensures DateIdCell(conv, Get(orders.rows[i], Purchase)) in KeySet(rows, DayKey)
    {
      var c := Get(orders.rows[i], Purchase);
      assert col[i] == c;
      var t := ToDatetime(conv, c).value;
      assert t in ts;
      var k :| 0 <= k < |ts| && ts[k] == t;
      assert DayKey(rows[k]) == DateIdCell(conv, c);
    }
  }

  /** After `drop_duplicates(subset=["date_id"])` every row still comes from a purchase,
      and every purchase day keeps a row. */
  lemma DayTableFacts(conv: Converter, orders: Table)
    ensures var t := Table(DayCols, DedupFirst(DayRows(conv, orders), DayKey));
      && (forall j :: 0 <= j < |t.rows| ==> FromPurchase(conv, orders, t.rows[j]))
      && (forall i :: 0 <= i < |orders.rows| && DateIdCell(conv, Get(orders.rows[i], Purchase)).Some? ==>
            HasDay(t, DateIdCell(conv, Get(orders.rows[i], Purchase))))
  {
    var rows := DayRows(conv, orders);
    var t := Table(DayCols, DedupFirst(rows, DayKey));
    DayRowsFacts(conv, orders);
    SubseqMembers(t.rows, rows);
    forall j | 0 <= j < |t.rows| ensures FromPurchase(conv, orders, t.rows[j]) {
      assert t.rows[j] in rows;
    }
    forall i | 0 <= i < |orders.rows| && DateIdCell(conv, Get(orders.rows[i], Purchase)).Some?
      ensures HasDay(t, DateIdCell(conv, Get(orders.rows[i], Purchase)))
    {
      var k := DateIdCell(conv, Get(orders.rows[i], Purchase));
      assert k in KeySet(t.rows, DayKey);
      var j :| 0 <= j < |t.rows| && DayKey(t.rows[j]) == k;
    }
  }

  /** The derived calendar always validates when the purchase column is present: every row
      is a day of some order's purchase, no `date_id` repeats, and every purchase day has
      its row. */
  lemma DimDateFromOrdersSpec(conv: Converter, orders: Table)
    ensures Purchase !in orders.cols ==> DimDateFromOrders(conv, orders) == Failure(MissingColumn(Purchase))
    ensures Purchase in orders.cols ==>
      var r := DimDateFromOrders(conv, orders);
      && r.Success?
      && r.value.cols == DayCols
      && GoldSchemas.PrimaryKey(r.value, "date_id")
      && (forall j :: 0 <= j < |r.value.rows| ==> FromPurchase(conv, orders, r.value.rows[j]))
      && (forall i :: 0 <= i < |orders.rows| && DateIdCell(conv, Get(orders.rows[i], Purchase)).Some? ==>
            HasDay(r.value, DateIdCell(conv, Get(orders.rows[i], Purchase))))
  {
    if Purchase in orders.cols {
      var rows := DayRows(conv, orders);
      var t := Table(DayCols, DedupFirst(rows, DayKey));
      DayTableValid(conv, rows);
      DayTableFacts(conv, orders);
      assert DimDateFromOrders(conv, orders) == Success(t);
      GoldSchemas.DimDateRule(t);
    }
  }

  /** Day rows with their repeated keys dropped always pass the Gold `dim_date` schema
      unchanged. */
  lemma DayTableValid(conv: Converter, rows: seq<Row>)
    requires forall r :: r in rows ==> exists ts :: r == DayRow(ts)
    ensures var t := Table(DayCols, DedupFirst(rows, DayKey));
      && TableTyped(GoldSchemas.DimDate, t)
      && ValidateTable(GoldSchemas.DimDate, true, conv, t) == Success(t)
  {
    var t := Table(DayCols, DedupFirst(rows, DayKey));
    SubseqMembers(t.rows, rows);
    forall j | 0 <= j < |t.rows|
      ensures forall sp :: sp in GoldSchemas.DimDate.columns ==> Settled(sp.ty, Get(t.rows[j], sp.name))
      ensures Get(t.rows[j], "date_id").Some? && Get(t.rows[j], "date").Some? && Get(t.rows[j], "year").Some?
      ensures Get(t.rows[j], "month").Some? && Get(t.rows[j], "day").Some?
    {
      assert t.rows[j] in rows;
      var ts :| t.rows[j] == DayRow(ts);
      DayRowFacts(ts);
    }
    assert ColumnsPresent(GoldSchemas.DimDate, t);
    assert OnDistinct(t.rows, "date_id") by {
      forall i, j | 0 <= i < j < |t.rows| ensures Get(t.rows[i], "date_id") != Get(t.rows[j], "date_id") {
        assert DayKey(t.rows[i]) != DayKey(t.rows[j]);
      }
    }
    SettledTyped(GoldSchemas.DimDate, t);
    GoldSchemas.DimDateRule(t);
    ValidateTyped(GoldSchemas.DimDate, true, conv, t);
  }

  lemma DayRowFacts(ts: Timestamp)
    ensures forall sp :: sp in GoldSchemas.DimDate.columns ==> Settled(sp.ty, Get(DayRow(ts), sp.name))
    ensures DayOf(DayRow(ts), ts)
  {
  }

  /* ---------- build_gold ---------- */

  /** `silver[name]`: a missing key raises, modelled as `UnknownTable`. */
  function Lookup(silver: map<string, Table>, name: string): (r: Result<Table, Error>)
    ensures r.Success? <==> name in silver
    ensures r.Success? ==> r.value == silver[name]
    ensures r.Failure? ==> r.error == UnknownTable(name)
  {
    if name in silver then Success(silver[name]) else Failure(UnknownTable(name))
  }

  /** The date keys `build_gold` collects: order purchase days, then line-item purchase
      days, then line-item shipping-limit days. */
  function GoldDateIds(fo: Table, foi: Table): (ids: seq<Cell>)
    ensures |ids| == |fo.rows| + 2 * |foi.rows|
  {
    Column(fo, PurchaseId) + Column(foi, PurchaseId) + Column(foi, ShippingId)
  }

  /** Every Silver table `build_gold` reads is present. */
  predicate HasInputs(silver: map<string, Table>) {
    && "customers" in silver && "products" in silver && "sellers" in silver && "orders" in silver
    && "order_items" in silver && "order_payments" in silver && "order_reviews" in silver
  }
  const GoldNames := {"dim_customers", "dim_products", "dim_sellers", "fact_orders", "fact_order_items",
                      "dim_date", "aux_order_payments", "aux_order_reviews"}

  /** The Gold layer as a value: each table is built in the order `build_gold` builds it,
      and the first missing input or failed validation is the outcome. */
  function GoldOf(conv: Converter, silver: map<string, Table>): (r: Result<map<string, Table>, Error>)
    ensures r.Success? ==> r.value.Keys == GoldNames
  {
    var customers :- Lookup(silver, "customers");
    var dc :- DimCustomers(conv, customers);
    var products :- Lookup(silver, "products");
    var dp :- DimProducts(conv, products);
    var sellers :- Lookup(silver, "sellers");
    var ds :- DimSellers(conv, sellers);
    var orders :- Lookup(silver, "orders");
    var fo :- FactOrders(conv, orders);
    var items :- Lookup(silver, "order_items");
    var foi :- FactOrderItems(conv, items, orders);
    var dd :- ValidateTable(GoldSchemas.DimDate, true, conv, DimDateTable(GoldDateIds(fo, foi)));
    var payments :- Lookup(silver, "order_payments");
    var ap :- TableOrderPayments(conv, payments);
    var reviews :- Lookup(silver, "order_reviews");
    var ar :- TableOrderReviews(conv, reviews);
    Success(GoldMap(dc, dp, ds, fo, foi, dd, ap, ar))
  }

  /** The Gold dictionary holding the eight built tables under their names. */
  function GoldMap(dc: Table, dp: Table, ds: Table, fo: Table, foi: Table, dd: Table, ap: Table, ar: Table)
    : (g: map<string, Table>)
    ensures g.Keys == GoldNames
    ensures g["dim_customers"] == dc && g["dim_products"] == dp && g["dim_sellers"] == ds
    ensures g["fact_orders"] == fo && g["fact_order_items"] == foi && g["dim_date"] == dd
    ensures g["aux_order_payments"] == ap && g["aux_order_reviews"] == ar
  {
    map["dim_customers" := dc, "dim_products" := dp, "dim_sellers" := ds, "fact_orders" := fo,
        "fact_order_items" := foi, "dim_date" := dd, "aux_order_payments" := ap,
        "aux_order_reviews" := ar]
  }

  /** `build_gold`: fills the Gold dictionary one table at a time. */
  method BuildGold(conv: Converter, silver: map<string, Table>) returns (r: Result<map<string, Table>, Error>)
    ensures r == GoldOf(conv, silver)
  {
    var gold: map<string, Table> := map[];
    var customers :- Lookup(silver, "customers");
    var dc :- DimCustomers(conv, customers);
    gold := gold["dim_customers" := dc];
    var products :- Lookup(silver, "products");
    var dp :- DimProducts(conv, products);
    gold := gold["dim_products" := dp];
    var sellers :- Lookup(silver, "sellers");
    var ds :- DimSellers(conv, sellers);
    gold := gold["dim_sellers" := ds];
    var orders :- Lookup(silver, "orders");
    var fo :- FactOrders(conv, orders);
    gold := gold["fact_orders" := fo];
    var items :- Lookup(silver, "order_items");
    var foi :- FactOrderItems(conv, items, orders);
    gold := gold["fact_order_items" := foi];
    var ids := GoldDateIds(gold["fact_orders"], gold["fact_order_items"]);
    var dd :- ValidateTable(GoldSchemas.DimDate, true, conv, DimDateTable(ids));
    gold := gold["dim_date" := dd];
    var payments :- Lookup(silver, "order_payments");
    var ap :- TableOrderPayments(conv, payments);
    gold := gold["aux_order_payments" := ap];
    var reviews :- Lookup(silver, "order_reviews");
    var ar :- TableOrderReviews(conv, reviews);
    gold := gold["aux_order_reviews" := ar];
    r := Success(gold);
  }

  /** Every builder of `build_gold` succeeds on its inputs (the calendar always does). */
  predicate BuildersSucceed(conv: Converter, silver: map<string, Table>)
    requires HasInputs(silver)
  {
    && DimCustomers(conv, silver["customers"]).Success?
    && DimProducts(conv, silver["products"]).Success?
    && DimSellers(conv, silver["sellers"]).Success?
    && FactOrders(conv, silver["orders"]).Success?
    && FactOrderItems(conv, silver["order_items"], silver["orders"]).Success?
    && TableOrderPayments(conv, silver["order_payments"]).Success?
    && TableOrderReviews(conv, silver["order_reviews"]).Success?
  }

  /** The Gold layer is built exactly when every input is present and every builder
      succeeds; it then holds the eight tables, each the one its builder returns, and the
      calendar built from the fact tables' date keys. */
  lemma GoldShape(conv: Converter, silver: map<string, Table>)
    ensures GoldOf(conv, silver).Success? <==> HasInputs(silver) && BuildersSucceed(conv, silver)
    ensures GoldOf(conv, silver).Success? ==>
      var g := GoldOf(conv, silver).value;
      var fo := FactOrders(conv, silver["orders"]).value;
      var foi := FactOrderItems(conv, silver["order_items"], silver["orders"]).value;
      && g.Keys == GoldNames
      && g["dim_customers"] == DimCustomers(conv, silver["customers"]).value
      && g["dim_products"] == DimProducts(conv, silver["products"]).value
      && g["dim_sellers"] == DimSellers(conv, silver["sellers"]).value
      && g["fact_orders"] == fo
      && g["fact_order_items"] == foi
      && g["dim_date"] == DimDateTable(GoldDateIds(fo, foi))
      && g["aux_order_payments"] == TableOrderPayments(conv, silver["order_payments"]).value
      && g["aux_order_reviews"] == TableOrderReviews(conv, silver["order_reviews"]).value
  {
    var g := GoldOf(conv, silver);
    if "customers" !in silver || DimCustomers(conv, silver["customers"]).Failure? {
    } else if "products" !in silver || DimProducts(conv, silver["products"]).Failure? {
    } else if "sellers" !in silver || DimSellers(conv, silver["sellers"]).Failure? {
    } else if "orders" !in silver || FactOrders(conv, silver["orders"]).Failure? {
    } else if "order_items" !in silver || FactOrderItems(conv, silver["order_items"], silver["orders"]).Failure? {
    } else {
      DimDateValid(conv, GoldDateIds(FactOrders(conv, silver["orders"]).value,
                                     FactOrderItems(conv, silver["order_items"], silver["orders"]).value));
      if "order_payments" !in silver || TableOrderPayments(conv, silver["order_payments"]).Failure? {
        assert g.Failure?;
      } else if "order_reviews" !in silver {
        assert g == Failure(UnknownTable("order_reviews"));
      } else if TableOrderReviews(conv, silver["order_reviews"]).Failure? {
        assert g.Failure?;
      }
    }
  }

  /** A Silver table `build_gold` reads but that is absent makes it fail. */
  lemma GoldMissing(conv: Converter, silver: map<string, Table>, name: string)
    requires name in {"customers", "products", "sellers", "orders", "order_items", "order_payments", "order_reviews"}
    requires name !in silver
    ensures GoldOf(conv, silver).Failure?
  {
    GoldShape(conv, silver);
  }

  /** The calendar of a built Gold layer has a row for exactly the date keys of the two
      fact tables that name a real calendar date, in ascending order. */
  lemma GoldCalendar(conv: Converter, silver: map<string, Table>, k: int)
    requires GoldOf(conv, silver).Success?
    ensures var g := GoldOf(conv, silver).value;
      var dd := g["dim_date"];
      && (forall i, j :: 0 <= i < j < |dd.rows| ==> IntAt(dd.rows[i], "date_id") < IntAt(dd.rows[j], "date_id"))
      && ((exists i :: 0 <= i < |dd.rows| && IntAt(dd.rows[i], "date_id") == k) <==>
          KeyDate(k).Some? &&
          (Some(Int(k)) in Column(g["fact_orders"], PurchaseId)
           || Some(Int(k)) in Column(g["fact_order_items"], PurchaseId)
           || Some(Int(k)) in Column(g["fact_order_items"], ShippingId)))
  {
    GoldShape(conv, silver);
    var g := GoldOf(conv, silver).value;
    CalendarOfFacts(g["fact_orders"], g["fact_order_items"], k);
  }

  /** The calendar built from the date keys of the two fact tables. */
  lemma CalendarOfFacts(fo: Table, foi: Table, k: int)
    ensures var dd := DimDateTable(GoldDateIds(fo, foi));
      && (forall i, j :: 0 <= i < j < |dd.rows| ==> IntAt(dd.rows[i], "date_id") < IntAt(dd.rows[j], "date_id"))
      && ((exists i :: 0 <= i < |dd.rows| && IntAt(dd.rows[i], "date_id") == k) <==>
          KeyDate(k).Some? &&
          (Some(Int(k)) in Column(fo, PurchaseId)
           || Some(Int(k)) in Column(foi, PurchaseId)
           || Some(Int(k)) in Column(foi, ShippingId)))
  {
    var ids := GoldDateIds(fo, foi);
    DimDateKeys(ids);
    assert Some(Int(k)) in ids <==>
      Some(Int(k)) in Column(fo, PurchaseId) || Some(Int(k)) in Column(foi, PurchaseId) || Some(Int(k)) in Column(foi, ShippingId);
  }
}
