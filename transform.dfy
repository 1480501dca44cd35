/** The Silver tier: schema validation with automatic typing, then geolocation
    deduplication, review canonicalisation, additive order quality flags and
    the product category translation join. */
module Transform {
  import opened Wrappers
  import opened Values
  import opened Tables
  import opened SchemaCore
  import opened ReviewOrder
  import SilverSchemas

  // ---------------------------------------------------------------------------
  // Geolocation

  const GeoKey: seq<string> := ["geolocation_zip_code_prefix", "geolocation_city", "geolocation_state"]

  function GeoKeyOf(r: Row): seq<Cell> { Key(r, GeoKey) }

  /** `drop_duplicates(subset=GeoKey)`: the first row of each literal (zip, city, state)
      triple, in input order; no case or whitespace folding, missing cells equal to each
      other. A key column that is absent raises. */
  function GeolocationDedup(t: Table): (r: Result<Table, Error>)
    ensures r.Success? <==> forall c :: c in GeoKey ==> c in t.cols
    ensures r.Failure? ==> r.error.MissingColumn? && r.error.column in GeoKey && r.error.column !in t.cols
    ensures r.Success? ==> r.value.cols == t.cols
    ensures r.Success? ==> Subseq(r.value.rows, t.rows) && |r.value.rows| <= |t.rows|
    ensures r.Success? ==> KeysDistinct(r.value.rows, GeoKeyOf) && KeySet(r.value.rows, GeoKeyOf) == KeySet(t.rows, GeoKeyOf)
    ensures r.Success? ==> forall i :: 0 <= i < |r.value.rows| ==>
              r.value.rows[i] == t.rows[FirstIndex(t.rows, GeoKeyOf, GeoKeyOf(r.value.rows[i]))]
  {
    if exists c :: c in GeoKey && c !in t.cols then Failure(MissingColumn(FirstMissing(GeoKey, t.cols)))
    else Success(Table(t.cols, DedupFirst(t.rows, GeoKeyOf)))
  }

  // ---------------------------------------------------------------------------
  // Reviews

  lemma KeySetMultiset<K>(a: seq<Row>, b: seq<Row>, key: Row -> K)
    requires multiset(a) == multiset(b)
    ensures KeySet(a, key) == KeySet(b, key)
  {
    forall k | k in KeySet(a, key) ensures k in KeySet(b, key) {
      var i :| 0 <= i < |a| && key(a[i]) == k;
      assert a[i] in multiset(b);
      var j :| 0 <= j < |b| && b[j] == a[i];
    }
    forall k | k in KeySet(b, key) ensures k in KeySet(a, key) {
      var i :| 0 <= i < |b| && key(b[i]) == k;
      assert b[i] in multiset(a);
      var j :| 0 <= j < |a| && a[j] == b[i];
    }
  }

  /** `reviews_canonical`: with no `review_id` column, the table itself; otherwise one row
      per review id. With a creation date column the rows are sorted (stable) by id and
      date and the last row of each id is kept; without it, the last row of each id in
      input order. */
  function ReviewsCanonical(t: Table): (r: Table)
    ensures r.cols == t.cols
    ensures "review_id" !in t.cols ==> r == t
    ensures "review_id" in t.cols ==>
              && KeysDistinct(r.rows, Id) && KeySet(r.rows, Id) == KeySet(t.rows, Id)
              && forall i :: 0 <= i < |r.rows| ==> r.rows[i] in t.rows
    ensures "review_id" in t.cols && "review_creation_date" !in t.cols ==>
              && Subseq(r.rows, t.rows)
              && forall i :: 0 <= i < |r.rows| ==> r.rows[i] == t.rows[LastIndex(t.rows, Id, Id(r.rows[i]))]
  {
    if "review_id" !in t.cols then t
    else if "review_creation_date" in t.cols then
      var s := Sort(t.rows);
      KeySetMultiset(s, t.rows, Id);
      var d := DedupLast(s, Id);
      SubseqMembers(d, s);
      assert forall i :: 0 <= i < |d| ==> d[i] in multiset(t.rows);
      Table(t.cols, d)
    else
      SubseqMembers(DedupLast(t.rows, Id), t.rows);
      Table(t.cols, DedupLast(t.rows, Id))
  }

  /** With a creation date column, review ids come out strictly ascending, and the row kept
      for each id is the reference choice `Win` (the latest creation date, the last such
      row in input order on a tie; a missing date counts as the latest, as `sort_values`
      puts missing values last). */
  lemma ReviewsCanonicalSorted(t: Table)
    requires "review_id" in t.cols && "review_creation_date" in t.cols
    ensures var r := ReviewsCanonical(t);
      && (forall i, j :: 0 <= i < j < |r.rows| ==> CellLt(Id(r.rows[i]), Id(r.rows[j])))
      && (forall i :: 0 <= i < |r.rows| ==> Win(t.rows, Id(r.rows[i])) == Some(r.rows[i]))
  {
    var s := Sort(t.rows);
    var d := DedupLast(s, Id);
    assert ReviewsCanonical(t).rows == d;
    var P := (a: Row, b: Row) => !RowLt(b, a);
    assert forall i, j :: 0 <= i < j < |s| ==> P(s[i], s[j]);
    SubseqPairwise(d, s, P);
    forall i, j | 0 <= i < j < |d| ensures CellLt(Id(d[i]), Id(d[j])) {
      assert P(d[i], d[j]);
      assert Id(d[i]) != Id(d[j]);
      CellLtTotal(Id(d[i]), Id(d[j]));
    }
    forall i | 0 <= i < |d| ensures Win(t.rows, Id(d[i])) == Some(d[i]) {
      var k := Id(d[i]);
      var j := LastIndex(s, Id, k);
      LastWithIndex(s, k, j);
      SortWin(t.rows, k);
    }
  }

  // ---------------------------------------------------------------------------
  // Order quality flags

  const Status := "order_status"
  const Purchase := "order_purchase_timestamp"
  const Approved := "order_approved_at"
  const Carrier := "order_delivered_carrier_date"
  const Customer := "order_delivered_customer_date"
  const Estimated := "order_estimated_delivery_date"

  const QcDelivered := "qc_missing_delivered_customer_date"
  const QcCarrier := "qc_missing_carrier_date"
  const QcApproved := "qc_missing_approved_at"
  const QcTemporal := "qc_temporal_inconsistency"
  const QcCols: seq<string> := [QcDelivered, QcCarrier, QcApproved, QcTemporal]

  /** The statuses for which a carrier date is expected. */
  const CarrierRequired: set<string> := {"shipped", "invoiced", "delivered"}

  predicate Has(t: Table, c: string) { c in t.cols }

  /** `a.notna() & (a < b)` on one row: false as soon as either timestamp is missing. */
  predicate Before(a: Cell, b: Cell) {
    a.Some? && b.Some? && a.value.Time? && b.value.Time? && TimeLt(a.value.t, b.value.t)
  }

  predicate StatusIs(r: Row, allowed: set<string>) {
    Get(r, Status).Some? && Get(r, Status).value.Text? && Get(r, Status).value.s in allowed
  }

  /** Delivered, but no customer delivery date. */
  predicate MissingDelivered(t: Table, r: Row) {
    Has(t, Status) && Has(t, Customer) && StatusIs(r, {"delivered"}) && Get(r, Customer).None?
  }

  /** Shipped, invoiced or delivered, but no carrier date. */
  predicate MissingCarrier(t: Table, r: Row) {
    Has(t, Status) && Has(t, Carrier) && StatusIs(r, CarrierRequired) && Get(r, Carrier).None?
  }

  predicate MissingApproved(t: Table, r: Row) {
    Has(t, Approved) && Get(r, Approved).None?
  }

  /** Some available pair of timestamps is out of order. */
  predicate TemporalInconsistent(t: Table, r: Row) {
    || (Has(t, Approved) && Has(t, Purchase) && Before(Get(r, Approved), Get(r, Purchase)))
    || (Has(t, Carrier) && Has(t, Purchase) && Before(Get(r, Carrier), Get(r, Purchase)))
    || (Has(t, Customer) && Has(t, Purchase) && Before(Get(r, Customer), Get(r, Purchase)))
    || (Has(t, Customer) && Has(t, Carrier) && Before(Get(r, Customer), Get(r, Carrier)))
    || (Has(t, Estimated) && Has(t, Customer) && Before(Get(r, Estimated), Get(r, Customer)))
  }

  /** `u` is `t` with the four flag columns set: same rows, every other cell unchanged, and
      each flag holding exactly when its rule does (a constant false when a column it reads
      is absent). */
  ghost predicate Flagged(t: Table, u: Table) {
    && |u.rows| == |t.rows|
    && (forall c :: c in u.cols <==> c in t.cols || c in QcCols)
    && (forall i, c :: 0 <= i < |t.rows| && c !in QcCols ==> Get(u.rows[i], c) == Get(t.rows[i], c))
    && (forall i :: 0 <= i < |t.rows| ==>
          && Get(u.rows[i], QcDelivered) == Some(Bool(MissingDelivered(t, t.rows[i])))
          && Get(u.rows[i], QcCarrier) == Some(Bool(MissingCarrier(t, t.rows[i])))
          && Get(u.rows[i], QcApproved) == Some(Bool(MissingApproved(t, t.rows[i])))
          && Get(u.rows[i], QcTemporal) == Some(Bool(TemporalInconsistent(t, t.rows[i]))))
  }

  /** Some condition of the list holds at row `i`. */
  predicate AnyAt(conds: seq<seq<bool>>, i: nat) {
    exists j :: 0 <= j < |conds| && i < |conds[j]| && conds[j][i]
  }

  lemma AnyAtAppend(conds: seq<seq<bool>>, c: seq<bool>, i: nat)
    ensures AnyAt(conds + [c], i) <==> AnyAt(conds, i) || (i < |c| && c[i])
  {
    var cs := conds + [c];
    if AnyAt(conds, i) {
      var j :| 0 <= j < |conds| && i < |conds[j]| && conds[j][i];
      assert cs[j] == conds[j];
    }
    if i < |c| && c[i] {
      assert cs[|conds|] == c;
    }
    if AnyAt(cs, i) {
      var j :| 0 <= j < |cs| && i < |cs[j]| && cs[j][i];
      if j < |conds| { assert cs[j] == conds[j]; }
    }
  }

  /** The pair check `a.notna() & (a < b)` over a whole table. */
  function PairCheck(t: Table, a: string, b: string): (col: seq<bool>)
    ensures |col| == |t.rows|
    ensures forall i :: 0 <= i < |t.rows| ==> (col[i] <==> Before(Get(t.rows[i], a), Get(t.rows[i], b)))
  {
    seq(|t.rows|, i requires 0 <= i < |t.rows| => Before(Get(t.rows[i], a), Get(t.rows[i], b)))
  }

  /** `reduce(op.or_, conds)`: the element-wise disjunction of a non-empty list of conditions. */
  method OrReduce(conds: seq<seq<bool>>, n: nat) returns (acc: seq<bool>)
    requires |conds| > 0 && forall j :: 0 <= j < |conds| ==> |conds[j]| == n
    ensures |acc| == n
    ensures forall i :: 0 <= i < n ==> (acc[i] <==> AnyAt(conds, i))
  {
    acc := conds[0];
    var k := 1;
    while k < |conds|
      invariant 1 <= k <= |conds| && |acc| == n
      invariant forall i :: 0 <= i < n ==> (acc[i] <==> AnyAt(conds[..k], i))
    {
      var c := conds[k];
      forall i | 0 <= i < n ensures AnyAt(conds[..k + 1], i) <==> AnyAt(conds[..k], i) || c[i] {
        assert conds[..k + 1] == conds[..k] + [c];
        AnyAtAppend(conds[..k], c, i);
      }
      acc := seq(n, i requires 0 <= i < n => acc[i] || c[i]);
      k := k + 1;
    }
    assert conds[..k] == conds;
  }

  /** `t` and `u` agree on everything outside the flag columns. */
  ghost predicate SameOutsideQc(t: Table, u: Table) {
    && |u.rows| == |t.rows|
    && (forall c :: c !in QcCols ==> (c in u.cols <==> c in t.cols))
    && (forall i, c :: 0 <= i < |t.rows| && c !in QcCols ==> Get(u.rows[i], c) == Get(t.rows[i], c))
  }

  /** The flag rules read no flag column. */
  lemma FlagsReadNoQc(t: Table, u: Table, i: nat)
    requires SameOutsideQc(t, u) && i < |t.rows|
    ensures MissingDelivered(u, u.rows[i]) == MissingDelivered(t, t.rows[i])
    ensures MissingCarrier(u, u.rows[i]) == MissingCarrier(t, t.rows[i])
    ensures MissingApproved(u, u.rows[i]) == MissingApproved(t, t.rows[i])
    ensures TemporalInconsistent(u, u.rows[i]) == TemporalInconsistent(t, t.rows[i])
  {
    forall c | c in [Status, Purchase, Approved, Carrier, Customer, Estimated]
      ensures (Has(u, c) <==> Has(t, c)) && Get(u.rows[i], c) == Get(t.rows[i], c)
    {
      assert c[0] == 'o';
      assert forall q :: q in QcCols ==> q[0] == 'q';
    }
  }

  function DeliveredColumn(t: Table): (col: seq<Cell>)
    ensures |col| == |t.rows|
    ensures forall i :: 0 <= i < |t.rows| ==> col[i] == Some(Bool(MissingDelivered(t, t.rows[i])))
  {
    var n := |t.rows|;
    if Has(t, Status) && Has(t, Customer) then
      seq(n, i requires 0 <= i < n => Some(Bool(StatusIs(t.rows[i], {"delivered"}) && Get(t.rows[i], Customer).None?)))
    else seq(n, i => Some(Bool(false)))
  }

  function CarrierColumn(t: Table): (col: seq<Cell>)
    ensures |col| == |t.rows|
    ensures forall i :: 0 <= i < |t.rows| ==> col[i] == Some(Bool(MissingCarrier(t, t.rows[i])))
  {
    var n := |t.rows|;
    if Has(t, Status) && Has(t, Carrier) then
      seq(n, i requires 0 <= i < n => Some(Bool(StatusIs(t.rows[i], CarrierRequired) && Get(t.rows[i], Carrier).None?)))
    else seq(n, i => Some(Bool(false)))
  }

  function ApprovedColumn(t: Table): (col: seq<Cell>)
    ensures |col| == |t.rows|
    ensures forall i :: 0 <= i < |t.rows| ==> col[i] == Some(Bool(MissingApproved(t, t.rows[i])))
  {
    var n := |t.rows|;
    if Has(t, Approved) then seq(n, i requires 0 <= i < n => Some(Bool(Get(t.rows[i], Approved).None?)))
    else seq(n, i => Some(Bool(false)))
  }

  /** The fourth flag: the available pair checks collected in a list, then or'ed together;
      a constant false when none is available. */
  method TemporalColumn(t: Table) returns (col: seq<Cell>)
    ensures |col| == |t.rows|
    ensures forall i :: 0 <= i < |t.rows| ==> col[i] == Some(Bool(TemporalInconsistent(t, t.rows[i])))
  {
    var n := |t.rows|;
    var conds: seq<seq<bool>> := [];
    ghost var c0 := conds;
    if Has(t, Approved) && Has(t, Purchase) {
      conds := conds + [PairCheck(t, Approved, Purchase)];
      forall i | 0 <= i < n ensures AnyAt(conds, i) <==> AnyAt(c0, i) || Before(Get(t.rows[i], Approved), Get(t.rows[i], Purchase)) {
        AnyAtAppend(c0, PairCheck(t, Approved, Purchase), i);
      }
    }
    ghost var c1 := conds;
    if Has(t, Carrier) && Has(t, Purchase) {
      conds := conds + [PairCheck(t, Carrier, Purchase)];
      forall i | 0 <= i < n ensures AnyAt(conds, i) <==> AnyAt(c1, i) || Before(Get(t.rows[i], Carrier), Get(t.rows[i], Purchase)) {
        AnyAtAppend(c1, PairCheck(t, Carrier, Purchase), i);
      }
    }
    ghost var c2 := conds;
    if Has(t, Customer) && Has(t, Purchase) {
      conds := conds + [PairCheck(t, Customer, Purchase)];
      forall i | 0 <= i < n ensures AnyAt(conds, i) <==> AnyAt(c2, i) || Before(Get(t.rows[i], Customer), Get(t.rows[i], Purchase)) {
        AnyAtAppend(c2, PairCheck(t, Customer, Purchase), i);
      }
    }
    ghost var c3 := conds;
    if Has(t, Customer) && Has(t, Carrier) {
      conds := conds + [PairCheck(t, Customer, Carrier)];
      forall i | 0 <= i < n ensures AnyAt(conds, i) <==> AnyAt(c3, i) || Before(Get(t.rows[i], Customer), Get(t.rows[i], Carrier)) {
        AnyAtAppend(c3, PairCheck(t, Customer, Carrier), i);
      }
    }
    ghost var c4 := conds;
    if Has(t, Estimated) && Has(t, Customer) {
      conds := conds + [PairCheck(t, Estimated, Customer)];
      forall i | 0 <= i < n ensures AnyAt(conds, i) <==> AnyAt(c4, i) || Before(Get(t.rows[i], Estimated), Get(t.rows[i], Customer)) {
        AnyAtAppend(c4, PairCheck(t, Estimated, Customer), i);
      }
    }
    assert forall i :: 0 <= i < n ==> (AnyAt(conds, i) <==> TemporalInconsistent(t, t.rows[i]));

    if |conds| > 0 {
      var acc := OrReduce(conds, n);
      col := seq(n, i requires 0 <= i < n => Some(Bool(acc[i])));
    } else {
      col := seq(n, i => Some(Bool(false)));
    }
  }

  /** The `orders` part of `add_quality_flags`: the four flag columns assigned in turn. */
  method FlagOrders(t: Table) returns (u: Table)
    ensures Flagged(t, u)
    ensures (forall c :: c in QcCols ==> c !in t.cols) ==> u.cols == t.cols + QcCols
  {
    u := WithColumn(t, QcDelivered, DeliveredColumn(t));
    ghost var u1 := u;
    u := WithColumn(u, QcCarrier, CarrierColumn(u));
    ghost var u2 := u;
    u := WithColumn(u, QcApproved, ApprovedColumn(u));
    ghost var u3 := u;
    var temporal := TemporalColumn(u);
    u := WithColumn(u, QcTemporal, temporal);
    FlagOrdersOutcome(t, u1, u2, u3, temporal, u);
  }

  /** The four assignments of `FlagOrders`, one after the other, flag `t`. */
  lemma FlagOrdersOutcome(t: Table, u1: Table, u2: Table, u3: Table, temporal: seq<Cell>, u: Table)
    requires u1 == WithColumn(t, QcDelivered, DeliveredColumn(t))
    requires u2 == WithColumn(u1, QcCarrier, CarrierColumn(u1))
    requires u3 == WithColumn(u2, QcApproved, ApprovedColumn(u2))
    requires |temporal| == |u3.rows|
    requires forall i :: 0 <= i < |u3.rows| ==> temporal[i] == Some(Bool(TemporalInconsistent(u3, u3.rows[i])))
    requires u == WithColumn(u3, QcTemporal, temporal)
    ensures Flagged(t, u)
    ensures (forall c :: c in QcCols ==> c !in t.cols) ==> u.cols == t.cols + QcCols
  {
    FlagFrame(t, u1, u2, u3, temporal, u);
    forall i | 0 <= i < |t.rows|
      ensures && Get(u.rows[i], QcDelivered) == Some(Bool(MissingDelivered(t, t.rows[i])))
              && Get(u.rows[i], QcCarrier) == Some(Bool(MissingCarrier(t, t.rows[i])))
              && Get(u.rows[i], QcApproved) == Some(Bool(MissingApproved(t, t.rows[i])))
              && Get(u.rows[i], QcTemporal) == Some(Bool(TemporalInconsistent(t, t.rows[i])))
    {
      FlagValuesAt(t, u1, u2, u3, temporal, u, i);
    }
    if forall c :: c in QcCols ==> c !in t.cols {
      FlagCols(t, u1, u2, u3, u);
    }
  }

  /** Each step of `FlagOrders` keeps the columns outside the flags. */
  lemma FlagFrame(t: Table, u1: Table, u2: Table, u3: Table, temporal: seq<Cell>, u: Table)
    requires u1 == WithColumn(t, QcDelivered, DeliveredColumn(t))
    requires u2 == WithColumn(u1, QcCarrier, CarrierColumn(u1))
    requires u3 == WithColumn(u2, QcApproved, ApprovedColumn(u2))
    requires |temporal| == |u3.rows|
    requires u == WithColumn(u3, QcTemporal, temporal)
    ensures SameOutsideQc(t, u1) && SameOutsideQc(t, u2) && SameOutsideQc(t, u3) && SameOutsideQc(t, u)
    ensures forall c :: c in u.cols <==> c in t.cols || c in QcCols
  {
    QcStep(t, t, QcDelivered, DeliveredColumn(t));
    QcStep(t, u1, QcCarrier, CarrierColumn(u1));
    QcStep(t, u2, QcApproved, ApprovedColumn(u2));
    QcStep(t, u3, QcTemporal, temporal);
    FlagMembers(t, u1, u2, u3, u);
  }

  /** The four flags of row `i`, each computed on a table that agrees with `t` outside
      the flag columns. */
  lemma FlagValuesAt(t: Table, u1: Table, u2: Table, u3: Table, temporal: seq<Cell>, u: Table, i: nat)
    requires u1 == WithColumn(t, QcDelivered, DeliveredColumn(t))
    requires u2 == WithColumn(u1, QcCarrier, CarrierColumn(u1))
    requires u3 == WithColumn(u2, QcApproved, ApprovedColumn(u2))
    requires |temporal| == |u3.rows|
    requires forall i :: 0 <= i < |u3.rows| ==> temporal[i] == Some(Bool(TemporalInconsistent(u3, u3.rows[i])))
    requires u == WithColumn(u3, QcTemporal, temporal)
    requires SameOutsideQc(t, u1) && SameOutsideQc(t, u2) && SameOutsideQc(t, u3)
    requires i < |t.rows|
    ensures Get(u.rows[i], QcDelivered) == Some(Bool(MissingDelivered(t, t.rows[i])))
    ensures Get(u.rows[i], QcCarrier) == Some(Bool(MissingCarrier(t, t.rows[i])))
    ensures Get(u.rows[i], QcApproved) == Some(Bool(MissingApproved(t, t.rows[i])))
    ensures Get(u.rows[i], QcTemporal) == Some(Bool(TemporalInconsistent(t, t.rows[i])))
  {
    FlagsReadNoQc(t, u1, i);
    FlagsReadNoQc(t, u2, i);
    FlagsReadNoQc(t, u3, i);
  }

  /** Setting one flag column keeps every other column as it was. */
  lemma QcStep(t: Table, u: Table, c: string, values: seq<Cell>)
    requires SameOutsideQc(t, u) && c in QcCols && |values| == |u.rows|
    ensures SameOutsideQc(t, WithColumn(u, c, values))
    ensures forall d :: d in WithColumn(u, c, values).cols <==> d in u.cols || d == c
  {
  }

  /** After the four assignments the columns are the old ones and the flag columns. */
  lemma FlagMembers(t: Table, u1: Table, u2: Table, u3: Table, u: Table)
    requires forall d :: d in u1.cols <==> d in t.cols || d == QcDelivered
    requires forall d :: d in u2.cols <==> d in u1.cols || d == QcCarrier
    requires forall d :: d in u3.cols <==> d in u2.cols || d == QcApproved
    requires forall d :: d in u.cols <==> d in u3.cols || d == QcTemporal
    ensures forall c :: c in u.cols <==> c in t.cols || c in QcCols
  {
    forall c ensures c in QcCols <==> c == QcDelivered || c == QcCarrier || c == QcApproved || c == QcTemporal {
    }
  }

  /** The flag columns are appended in the order of `QcCols` when none was there yet. */
  lemma FlagCols(t: Table, u1: Table, u2: Table, u3: Table, u: Table)
    requires u1.cols == if QcDelivered in t.cols then t.cols else t.cols + [QcDelivered]
    requires u2.cols == if QcCarrier in u1.cols then u1.cols else u1.cols + [QcCarrier]
    requires u3.cols == if QcApproved in u2.cols then u2.cols else u2.cols + [QcApproved]
    requires u.cols == if QcTemporal in u3.cols then u3.cols else u3.cols + [QcTemporal]
    requires forall c :: c in QcCols ==> c !in t.cols
    ensures u.cols == t.cols + QcCols
  {
    assert QcCols[0] !in t.cols && QcCols[1] !in t.cols && QcCols[2] !in t.cols && QcCols[3] !in t.cols;
    assert u1.cols == t.cols + [QcDelivered];
    assert QcCarrier !in u1.cols;
    assert u2.cols == t.cols + [QcDelivered, QcCarrier];
    assert QcApproved !in u2.cols;
    assert u3.cols == t.cols + [QcDelivered, QcCarrier, QcApproved];
    assert QcTemporal !in u3.cols;
  }

  /** `add_quality_flags`: every table copied, and the `orders` table, when present, given
      the four `qc_*` columns; nothing else changes. */
  method AddQualityFlags(dfs: map<string, Table>) returns (out: map<string, Table>)
    ensures out.Keys == dfs.Keys
    ensures forall name :: name in dfs && name != "orders" ==> out[name] == dfs[name]
    ensures "orders" in dfs ==> Flagged(dfs["orders"], out["orders"])
    ensures "orders" in dfs && (forall c :: c in QcCols ==> c !in dfs["orders"].cols) ==>
              out["orders"].cols == dfs["orders"].cols + QcCols
  {
    out := dfs;
    if "orders" !in out {
      return;
    }
    var orders := FlagOrders(out["orders"]);
    out := out["orders" := orders];
  }

  // ---------------------------------------------------------------------------
  // build_silver

  const Translation := "product_category_name_translation"

  /** `SCHEMAS_SILVER`: the Silver schema registered under a table name. */
  function SilverSchemaFor(name: string): Option<TableSchema> {
    if name == "customers" then Some(SilverSchemas.Customers)
    else if name == "orders" then Some(SilverSchemas.Orders)
    else if name == "order_items" then Some(SilverSchemas.OrderItems)
    else if name == "order_payments" then Some(SilverSchemas.OrderPayments)
    else if name == "order_reviews" then Some(SilverSchemas.OrderReviews)
    else if name == "products" then Some(SilverSchemas.Products)
    else if name == "sellers" then Some(SilverSchemas.Sellers)
    else if name == "geolocation" then Some(SilverSchemas.Geolocation)
    else if name == Translation then Some(SilverSchemas.CategoryTranslation)
    else None
  }

  /** What the validation step makes of one table: unchanged when no schema is registered,
      otherwise validated, with coercion (the schemas' declared setting) except for
      products, which are validated with coercion off. */
  function SilverValidated(conv: Converter, name: string, t: Table): Result<Table, Error> {
    match SilverSchemaFor(name)
    case None => Success(t)
    case Some(s) => ValidateTable(s, name != "products", conv, t)
  }

  /** The registry of live schema objects: one per registered name, holding that name's
      schema; `coerce` is whatever the objects currently hold. */
  ghost predicate Registry(reg: map<string, SchemaObject>) {
    forall name :: (name in reg <==> SilverSchemaFor(name).Some?) && (name in reg ==> reg[name].spec == SilverSchemaFor(name).value)
  }

  /** One table of step 1: the `products` schema object has its `coerce` flag set to
      false around its validation and put back afterwards, whether validation succeeds or
      fails; any other object validates under its current flag. */
  method ValidateOne(schema: SchemaObject, name: string, conv: Converter, df: Table) returns (res: Result<Table, Error>)
    modifies schema
    ensures schema.coerce == old(schema.coerce)
    ensures res == ValidateTable(schema.spec, if name == "products" then false else schema.coerce, conv, df)
  {
    if name == "products" {
      var oldCoerce := schema.coerce;
      schema.coerce := false;
      res := schema.Validate(conv, df);
      schema.coerce := oldCoerce;
    } else {
      res := schema.Validate(conv, df);
    }
  }

  /** The validation of a table whose registered Silver schema is `s`. */
  lemma SilverValidatedBy(conv: Converter, name: string, s: TableSchema, t: Table)
    requires SilverSchemaFor(name) == Some(s)
    ensures SilverValidated(conv, name, t) == ValidateTable(s, name != "products", conv, t)
  {
  }

  /** Step 1 of `build_silver`: validate each table in the given order, the first failure
      aborting; tables with no registered schema are kept as they are. */
  method ValidateSilverAll(reg: map<string, SchemaObject>, conv: Converter, names: seq<string>, dfs: map<string, Table>)
    returns (r: Result<map<string, Table>, Error>)
    requires Registry(reg) && forall name :: name in reg ==> reg[name].coerce
    requires forall name :: name in names <==> name in dfs
    modifies set name | name in reg :: reg[name]
    ensures forall name :: name in reg ==> reg[name].coerce == old(reg[name].coerce)
    ensures r.Success? <==> forall name :: name in dfs ==> SilverValidated(conv, name, dfs[name]).Success?
    ensures r.Failure? ==> exists i :: (0 <= i < |names| && SilverValidated(conv, names[i], dfs[names[i]]) == Failure(r.error)
              && forall j :: 0 <= j < i ==> SilverValidated(conv, names[j], dfs[names[j]]).Success?)
    ensures r.Success? ==> r.value.Keys == dfs.Keys
    ensures r.Success? ==> forall name :: name in dfs ==> SilverValidated(conv, name, dfs[name]) == Success(r.value[name])
  {
    ghost var want := map name | name in dfs :: SilverValidated(conv, name, dfs[name]);
    forall name | name in dfs && name in reg
      ensures want[name] == ValidateTable(reg[name].spec, name != "products", conv, dfs[name])
    {
      SilverValidatedBy(conv, name, reg[name].spec, dfs[name]);
    }
    forall name | name in dfs && name !in reg
      ensures want[name] == Success(dfs[name])
    {
      assert SilverSchemaFor(name).None?;
    }
    r := ValidateNames(reg, conv, names, dfs, want);
  }

  /** The validation loop, against the outcome `want` each table must have. */
  method ValidateNames(reg: map<string, SchemaObject>, conv: Converter, names: seq<string>, dfs: map<string, Table>,
                       ghost want: map<string, Result<Table, Error>>)
    returns (r: Result<map<string, Table>, Error>)
    requires forall name :: name in reg ==> reg[name].coerce
    requires forall name :: name in names <==> name in dfs
    requires want.Keys == dfs.Keys
    requires forall name :: name in dfs && name in reg ==>
               want[name] == ValidateTable(reg[name].spec, name != "products", conv, dfs[name])
    requires forall name :: name in dfs && name !in reg ==> want[name] == Success(dfs[name])
    modifies set name | name in reg :: reg[name]
    ensures forall name :: name in reg ==> reg[name].coerce == old(reg[name].coerce)
    ensures r.Success? <==> forall name :: name in dfs ==> want[name].Success?
    ensures r.Failure? ==> exists i :: (0 <= i < |names| && want[names[i]] == Failure(r.error)
              && forall j :: 0 <= j < i ==> want[names[j]].Success?)
    ensures r.Success? ==> r.value.Keys == dfs.Keys
    ensures r.Success? ==> forall name :: name in dfs ==> want[name] == Success(r.value[name])
  {
    var validated: map<string, Table> := map[];
    var k := 0;
    while k < |names|
      invariant 0 <= k <= |names|
      invariant forall name :: name in validated <==> name in names[..k]
      invariant forall name :: name in validated ==> want[name] == Success(validated[name])
      invariant forall j :: 0 <= j < k ==> want[names[j]].Success?
      invariant forall name :: name in reg ==> reg[name].coerce == old(reg[name].coerce)
    {
      var name := names[k];
      var df := dfs[name];
      assert names[..k + 1] == names[..k] + [name];
      if name !in reg {
        validated := validated[name := df];
      } else {
        var res := ValidateOne(reg[name], name, conv, df);
        assert res == want[name];
        if res.Failure? {
          return Failure(res.error);
        }
        validated := validated[name := res.value];
      }
      k := k + 1;
    }
    assert names[..k] == names;
    r := Success(validated);
  }

  /** A table that passed its Silver geolocation schema has the three key columns. */
  lemma GeolocationKeysPresent(conv: Converter, t: Table)
    requires SilverValidated(conv, "geolocation", t).Success?
    ensures forall c :: c in GeoKey ==> c in SilverValidated(conv, "geolocation", t).value.cols
  {
    ValidateShape(SilverSchemas.Geolocation, true, conv, t);
    assert forall c :: c in GeoKey ==> exists sp :: sp in SilverSchemas.Geolocation.columns && sp.name == c;
  }

  /** A validated products or translation table has the category name column. */
  lemma CategoryPresent(conv: Converter, name: string, t: Table)
    requires name == "products" || name == Translation
    requires SilverValidated(conv, name, t).Success?
    ensures "product_category_name" in SilverValidated(conv, name, t).value.cols
  {
    var s := SilverSchemaFor(name).value;
    ValidateShape(s, name != "products", conv, t);
    assert exists sp :: sp in s.columns && sp.name == "product_category_name";
  }

  /** A table name with no registered schema is kept by validation and is none of the
      transformed tables. */
  lemma NoSchemaPassesThrough(conv: Converter, name: string, t: Table)
    requires SilverSchemaFor(name).None?
    ensures SilverValidated(conv, name, t) == Success(t)
    ensures name !in {"geolocation", "order_reviews", "orders", "products"}
  {
  }

  /** The Silver transforms' outcome on validated tables `dfs`: four tables transformed,
      the rest unchanged. */
  ghost predicate SilverOutcome(dfs: map<string, Table>, out: map<string, Table>) {
    && out.Keys == dfs.Keys
    && (forall name :: name in dfs && name !in {"geolocation", "order_reviews", "orders", "products"} ==> out[name] == dfs[name])
    && ("geolocation" in dfs ==> Success(out["geolocation"]) == GeolocationDedup(dfs["geolocation"]))
    && ("order_reviews" in dfs ==> out["order_reviews"] == ReviewsCanonical(dfs["order_reviews"]))
    && ("orders" in dfs ==> Flagged(dfs["orders"], out["orders"]))
    && ("products" in dfs && Translation in dfs ==>
          Success(out["products"]) == LeftJoin(dfs["products"], dfs[Translation], "product_category_name"))
    && ("products" in dfs && Translation !in dfs ==> out["products"] == dfs["products"])
  }

  /** Step 2 of `build_silver`, on the validated tables: deduplicate geolocation,
      canonicalise the reviews, flag the orders, join the translation onto the products. */
  method SilverTransforms(dfs: map<string, Table>) returns (out: map<string, Table>)
    requires "geolocation" in dfs ==> forall c :: c in GeoKey ==> c in dfs["geolocation"].cols
    requires "products" in dfs && Translation in dfs ==>
               "product_category_name" in dfs["products"].cols && "product_category_name" in dfs[Translation].cols
    ensures SilverOutcome(dfs, out)
  {
    var geo := DedupGeolocationStep(dfs);
    var rev := CanonicalReviewsStep(geo);
    var flagged := AddQualityFlags(rev);
    out := TranslateProductsStep(flagged);
    StepsOutcome(dfs, geo, rev, flagged, out);
  }

  /** The four steps, each changing only its own table, compose to the Silver outcome. */
  lemma StepsOutcome(dfs: map<string, Table>, geo: map<string, Table>, rev: map<string, Table>,
                     flagged: map<string, Table>, out: map<string, Table>)
    requires geo.Keys == dfs.Keys
    requires forall name :: name in dfs && name != "geolocation" ==> geo[name] == dfs[name]
    requires "geolocation" in dfs ==> Success(geo["geolocation"]) == GeolocationDedup(dfs["geolocation"])
    requires rev.Keys == geo.Keys
    requires forall name :: name in geo && name != "order_reviews" ==> rev[name] == geo[name]
    requires "order_reviews" in geo ==> rev["order_reviews"] == ReviewsCanonical(geo["order_reviews"])
    requires flagged.Keys == rev.Keys
    requires forall name :: name in rev && name != "orders" ==> flagged[name] == rev[name]
    requires "orders" in rev ==> Flagged(rev["orders"], flagged["orders"])
    requires out.Keys == flagged.Keys
    requires forall name :: name in flagged && name != "products" ==> out[name] == flagged[name]
    requires "products" in flagged && Translation in flagged ==>
               Success(out["products"]) == LeftJoin(flagged["products"], flagged[Translation], "product_category_name")
    requires "products" in flagged && Translation !in flagged ==> out["products"] == flagged["products"]
    ensures SilverOutcome(dfs, out)
  {
    if "orders" in dfs {
      assert rev["orders"] == dfs["orders"];
      assert out["orders"] == flagged["orders"];
    }
    if "products" in dfs {
      assert flagged["products"] == dfs["products"];
    }
    if Translation in dfs {
      assert flagged[Translation] == dfs[Translation];
    }
  }

  /** Step 2.1: the geolocation table, when present, is deduplicated. */
  method DedupGeolocationStep(dfs: map<string, Table>) returns (out: map<string, Table>)
    requires "geolocation" in dfs ==> forall c :: c in GeoKey ==> c in dfs["geolocation"].cols
    ensures out.Keys == dfs.Keys
    ensures forall name :: name in dfs && name != "geolocation" ==> out[name] == dfs[name]
    ensures "geolocation" in dfs ==> Success(out["geolocation"]) == GeolocationDedup(dfs["geolocation"])
  {
    out := dfs;
    if "geolocation" in dfs {
      var g := GeolocationDedup(dfs["geolocation"]);
      out := dfs["geolocation" := g.value];
    }
  }

  /** Step 2.2: the reviews table, when present, is made canonical. */
  method CanonicalReviewsStep(dfs: map<string, Table>) returns (out: map<string, Table>)
    ensures out.Keys == dfs.Keys
    ensures forall name :: name in dfs && name != "order_reviews" ==> out[name] == dfs[name]
    ensures "order_reviews" in dfs ==> out["order_reviews"] == ReviewsCanonical(dfs["order_reviews"])
  {
    out := dfs;
    if "order_reviews" in dfs {
      out := dfs["order_reviews" := ReviewsCanonical(dfs["order_reviews"])];
    }
  }

  /** Step 2.4: the products, when both tables are present, are left-joined with the
      category translation. */
  method TranslateProductsStep(dfs: map<string, Table>) returns (out: map<string, Table>)
    requires "products" in dfs && Translation in dfs ==>
               "product_category_name" in dfs["products"].cols && "product_category_name" in dfs[Translation].cols
    ensures out.Keys == dfs.Keys
    ensures forall name :: name in dfs && name != "products" ==> out[name] == dfs[name]
    ensures "products" in dfs && Translation in dfs ==>
              Success(out["products"]) == LeftJoin(dfs["products"], dfs[Translation], "product_category_name")
    ensures "products" in dfs && Translation !in dfs ==> out["products"] == dfs["products"]
  {
    out := dfs;
    if "products" in dfs && Translation in dfs {
      var j := LeftJoin(dfs["products"], dfs[Translation], "product_category_name");
      out := dfs["products" := j.value];
    }
  }

  /** `build_silver`: validate every table, then apply the Silver transforms; a table with
      no registered schema passes through both steps unchanged. */
  method BuildSilver(reg: map<string, SchemaObject>, conv: Converter, names: seq<string>, dfs: map<string, Table>)
    returns (r: Result<map<string, Table>, Error>)
    requires Registry(reg) && forall name :: name in reg ==> reg[name].coerce
    requires forall name :: name in names <==> name in dfs
    modifies set name | name in reg :: reg[name]
    ensures forall name :: name in reg ==> reg[name].coerce == old(reg[name].coerce)
    ensures r.Success? <==> forall name :: name in dfs ==> SilverValidated(conv, name, dfs[name]).Success?
    ensures r.Failure? ==> exists i :: (0 <= i < |names| && SilverValidated(conv, names[i], dfs[names[i]]) == Failure(r.error)
              && forall j :: 0 <= j < i ==> SilverValidated(conv, names[j], dfs[names[j]]).Success?)
    ensures r.Success? ==> r.value.Keys == dfs.Keys
    ensures r.Success? ==> forall name :: name in dfs && SilverSchemaFor(name).None? ==> r.value[name] == dfs[name]
    ensures r.Success? ==> exists validated: map<string, Table> ::
              && validated.Keys == dfs.Keys
              && (forall name :: name in dfs ==> SilverValidated(conv, name, dfs[name]) == Success(validated[name]))
              && SilverOutcome(validated, r.value)
  {
    var v := ValidateSilverAll(reg, conv, names, dfs);
    if v.Failure? {
      return Failure(v.error);
    }
    if "geolocation" in v.value {
      GeolocationKeysPresent(conv, dfs["geolocation"]);
    }
    if "products" in v.value && Translation in v.value {
      CategoryPresent(conv, "products", dfs["products"]);
      CategoryPresent(conv, Translation, dfs[Translation]);
    }
    var out := SilverTransforms(v.value);
    forall name | name in dfs && SilverSchemaFor(name).None? ensures out[name] == dfs[name] {
      NoSchemaPassesThrough(conv, name, dfs[name]);
    }
    r := Success(out);
  }
}
