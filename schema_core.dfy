/** The declarative table contracts of the three tiers, in the form the
    schema library gives them: per column a declared type, a nullability flag
    and value checks; per table an optional unique key and whole-frame checks.
    `ValidateTable` is the non-lazy `validate`: the first violation aborts with a
    single `SchemaError`; success returns the (possibly coerced) table with the
    same columns and the same rows. */
module SchemaCore {
  import opened Wrappers
  import opened Strings
  import opened Values
  import opened Tables

  datatype ColType = TString | TInt | TFloat | TTime

  /** The value checks the schemas use; each is applied to the non-null cells only. */
  datatype Check =
    | Ge(lo: real)                  // Check.ge
    | Le(hi: real)                  // Check.le
    | InRange(lo: real, hi: real)   // Check.in_range, both ends included
    | IsIn(allowed: seq<string>)    // Check.isin
    | AllDigits                     // str.fullmatch(r"\d+")
    | LenBetween(minLen: nat, maxLen: nat)  // str.len().between(lo, hi)
    | NotBlank                      // str.strip() != ""
    | MinLen(n: nat)                // str.len() >= n

  datatype ColumnSpec = ColumnSpec(name: string, ty: ColType, nullable: bool, checks: seq<Check>)

  /** Whole-frame checks. The only one in use: a review is not answered before it is created. */
  datatype FrameCheck = AnswerNotBeforeCreation

  datatype TableSchema = TableSchema(columns: seq<ColumnSpec>, unique: seq<string>, frameChecks: seq<FrameCheck>)

  /** The conversions the model does not define itself (timestamp and float parsing, and
      the text form of a non-text value), passed in as parameters. */
  datatype Converter = Converter(
    parseTime: string -> Option<Timestamp>,
    parseReal: string -> Option<real>,
    render: Value -> string)

  predicate CheckHolds(k: Check, v: Value) {
    match k
    case Ge(lo) => IsNumber(v) && Num(v) >= lo
    case Le(hi) => IsNumber(v) && Num(v) <= hi
    case InRange(lo, hi) => IsNumber(v) && lo <= Num(v) <= hi
    case IsIn(allowed) => v.Text? && v.s in allowed
    case AllDigits => v.Text? && IsDigits(v.s)
    case LenBetween(lo, hi) => v.Text? && lo <= |v.s| <= hi
    case NotBlank => v.Text? && Strip(v.s) != ""
    case MinLen(n) => v.Text? && |v.s| >= n
  }

  predicate HasType(ty: ColType, v: Value) {
    match ty
    case TString => v.Text?
    case TInt => v.Int?
    case TFloat => v.Real?
    case TTime => v.Time?
  }

  /** A cell satisfies its column: null only where nullable, otherwise of the declared
      type and passing every check. */
  predicate CellOk(spec: ColumnSpec, c: Cell) {
    match c
    case None => spec.nullable
    case Some(v) => HasType(spec.ty, v) && ChecksHold(spec.checks, v)
  }

  /** Every check of the list holds of `v`. Written two checks per step, so that the
      lists the schemas declare (at most two checks) unfold in one step. */
  predicate ChecksHold(ks: seq<Check>, v: Value) {
    if |ks| <= 2 then (|ks| >= 1 ==> CheckHolds(ks[0], v)) && (|ks| == 2 ==> CheckHolds(ks[1], v))
    else CheckHolds(ks[0], v) && CheckHolds(ks[1], v) && ChecksHold(ks[2..], v)
  }

  lemma {:induction false} ChecksHoldAll(ks: seq<Check>, v: Value)
    ensures ChecksHold(ks, v) <==> forall k :: k in ks ==> CheckHolds(k, v)
  {
    if |ks| <= 2 {
      assert forall k :: k in ks ==> k == ks[0] || k == ks[1];
    } else {
      ChecksHoldAll(ks[2..], v);
      assert forall k :: k in ks ==> k == ks[0] || k == ks[1] || k in ks[2..];
    }
  }

  /** A null cell, or one already of the declared type. */
  predicate Typed(ty: ColType, c: Cell) {
    c.None? || HasType(ty, c.value)
  }

  // ---------------------------------------------------------------------------
  // Coercion

  function CoerceValue(conv: Converter, ty: ColType, v: Value): (r: Option<Value>)
    ensures r.Some? ==> HasType(ty, r.value)
    ensures HasType(ty, v) ==> r == Some(v)
  {
    match ty
    case TString => Some(if v.Text? then v else Text(conv.render(v)))
    case TInt =>
      (match v
       case Int(_) => Some(v)
       case Real(x) => if x.Floor as real == x then Some(Int(x.Floor)) else None
       case Bool(b) => Some(Int(if b then 1 else 0))
       case Text(s) => (match ParseInt(s) case Some(n) => Some(Int(n)) case None => None)
       case Time(_) => None)
    case TFloat =>
      (match v
       case Real(_) => Some(v)
       case Int(n) => Some(Real(n as real))
       case Bool(b) => Some(Real(if b then 1.0 else 0.0))
       case Text(s) => (match conv.parseReal(s) case Some(x) => Some(Real(x)) case None => None)
       case Time(_) => None)
    case TTime =>
      (match v
       case Time(_) => Some(v)
       case Text(s) => (match conv.parseTime(s) case Some(x) => Some(Time(x)) case None => None)
       case _ => None)
  }

  /** A cell coercion leaves as it is: one of the declared type, or a missing cell in a
      column whose type has a missing value. `int64` has none. */
  predicate Settled(ty: ColType, c: Cell) {
    Typed(ty, c) && (c.None? ==> ty != TInt)
  }

  /** Missing cells stay missing, except that coercion to `int64` fails on a missing
      cell; `None` means the cell cannot be converted. */
  function CoerceCell(conv: Converter, ty: ColType, c: Cell): (r: Option<Cell>)
    ensures r.Some? ==> (r.value.None? <==> c.None?) && Typed(ty, r.value)
    ensures c.None? ==> (r.Some? <==> ty != TInt)
    ensures Settled(ty, c) ==> r == Some(c)
  {
    match c
    case None => if ty == TInt then None else Some(None)
    case Some(v) => (match CoerceValue(conv, ty, v) case Some(w) => Some(Some(w)) case None => None)
  }

  /** The first column spec named `c`. */
  function SpecFor(specs: seq<ColumnSpec>, c: string): (r: Option<ColumnSpec>)
    ensures r.Some? ==> r.value in specs && r.value.name == c
    ensures r.None? ==> forall sp :: sp in specs ==> sp.name != c
  {
    if specs == [] then None
    else if specs[0].name == c then Some(specs[0])
    else SpecFor(specs[1..], c)
  }

  function CoerceIn(conv: Converter, specs: seq<ColumnSpec>, c: string, x: Cell): Option<Cell> {
    match SpecFor(specs, c)
    case None => Some(x)
    case Some(sp) => CoerceCell(conv, sp.ty, x)
  }

  predicate RowCoercible(conv: Converter, specs: seq<ColumnSpec>, r: Row) {
    forall c :: c in r ==> CoerceIn(conv, specs, c, r[c]).Some?
  }

  /** The row with every declared column converted to its declared type. */
  function CoerceRow(conv: Converter, specs: seq<ColumnSpec>, r: Row): Row
    requires RowCoercible(conv, specs, r)
  {
    map c | c in r :: CoerceIn(conv, specs, c, r[c]).value
  }

  // ---------------------------------------------------------------------------
  // Acceptance

  predicate ColumnsPresent(s: TableSchema, t: Table) {
    forall sp :: sp in s.columns ==> sp.name in t.cols
  }

  predicate RowOk(s: TableSchema, r: Row) {
    forall sp :: sp in s.columns ==> CellOk(sp, Get(r, sp.name))
  }

  /** `RowOk` read column by column, the form in which literal schemas unfold. */
  lemma RowOkByIndex(s: TableSchema, r: Row)
    ensures RowOk(s, r) <==> forall k :: 0 <= k < |s.columns| ==> CellOk(s.columns[k], Get(r, s.columns[k].name))
  {
  }

  predicate AnswerOk(r: Row) {
    match (Get(r, "review_creation_date"), Get(r, "review_answer_timestamp"))
    case (Some(Time(created)), Some(Time(answered))) => TimeLe(created, answered)
    case _ => true
  }

  predicate FrameCheckHolds(f: FrameCheck, rows: seq<Row>) {
    match f
    case AnswerNotBeforeCreation => forall i :: 0 <= i < |rows| ==> AnswerOk(rows[i])
  }

  /** No two rows share their `cols` cells (missing cells compare equal, as in `duplicated`). */
  predicate UniqueOn(rows: seq<Row>, cols: seq<string>) {
    forall i, j :: 0 <= i < j < |rows| ==> Key(rows[i], cols) != Key(rows[j], cols)
  }

  /** Every check of the schema holds of an (already converted) table. */
  predicate Accepts(s: TableSchema, t: Table) {
    && (forall i :: 0 <= i < |t.rows| ==> RowOk(s, t.rows[i]))
    && (s.unique != [] ==> UniqueOn(t.rows, s.unique))
    && (forall f :: f in s.frameChecks ==> FrameCheckHolds(f, t.rows))
  }

  predicate TableCoercible(s: TableSchema, conv: Converter, t: Table) {
    forall i :: 0 <= i < |t.rows| ==> RowCoercible(conv, s.columns, t.rows[i])
  }

  function CoerceTable(s: TableSchema, conv: Converter, t: Table): Table
    requires TableCoercible(s, conv, t)
  {
    Table(t.cols, seq(|t.rows|, i requires 0 <= i < |t.rows| => CoerceRow(conv, s.columns, t.rows[i])))
  }

  /** `schema.validate(t)` with the schema's `coerce` flag as given. */
  function ValidateTable(s: TableSchema, coerce: bool, conv: Converter, t: Table): Result<Table, Error> {
    if !ColumnsPresent(s, t) then Failure(SchemaError("column missing"))
    else if coerce && !TableCoercible(s, conv, t) then Failure(SchemaError("coercion failed"))
    else
      var t' := if coerce then CoerceTable(s, conv, t) else t;
      if Accepts(s, t') then Success(t') else Failure(SchemaError("check failed"))
  }

  /** Every declared column of every row already holds its declared type. */
  predicate TableTyped(s: TableSchema, t: Table) {
    forall i, sp :: 0 <= i < |t.rows| && sp in s.columns ==> Typed(sp.ty, Get(t.rows[i], sp.name))
  }

  /** Every declared column of every row holds a cell coercion leaves as it is. */
  predicate TableSettled(s: TableSchema, t: Table) {
    forall i, sp :: 0 <= i < |t.rows| && sp in s.columns ==> Settled(sp.ty, Get(t.rows[i], sp.name))
  }

  lemma SettledTyped(s: TableSchema, t: Table)
    requires TableSettled(s, t)
    ensures TableTyped(s, t)
  {
  }

  lemma CoerceRowTyped(s: TableSchema, conv: Converter, r: Row)
    requires forall sp :: sp in s.columns ==> Settled(sp.ty, Get(r, sp.name))
    ensures RowCoercible(conv, s.columns, r) && CoerceRow(conv, s.columns, r) == r
  {
    forall c | c in r ensures CoerceIn(conv, s.columns, c, r[c]) == Some(r[c]) {
      var sp := SpecFor(s.columns, c);
      if sp.Some? {
        assert Settled(sp.value.ty, Get(r, sp.value.name));
      }
    }
  }

  /** Coercion fails on a row holding a missing cell in a declared integer column: the
      reason the pre-cast `products` table is validated with coercion off. */
  lemma CoerceMissingInt(s: TableSchema, conv: Converter, t: Table, i: nat, c: string)
    requires i < |t.rows| && c in t.rows[i] && t.rows[i][c].None?
    requires SpecFor(s.columns, c).Some? && SpecFor(s.columns, c).value.ty == TInt
    ensures ValidateTable(s, true, conv, t).Failure?
  {
    assert CoerceIn(conv, s.columns, c, t.rows[i][c]).None?;
    assert !RowCoercible(conv, s.columns, t.rows[i]);
  }

  /** On a table already of the declared types, coercion changes nothing: validation
      returns the table itself exactly when the schema's checks hold. */
  lemma ValidateTyped(s: TableSchema, coerce: bool, conv: Converter, t: Table)
    requires ColumnsPresent(s, t) && TableSettled(s, t)
    ensures ValidateTable(s, coerce, conv, t) == if Accepts(s, t) then Success(t) else Failure(SchemaError("check failed"))
  {
    forall i | 0 <= i < |t.rows| ensures RowCoercible(conv, s.columns, t.rows[i]) && CoerceRow(conv, s.columns, t.rows[i]) == t.rows[i] {
      CoerceRowTyped(s, conv, t.rows[i]);
    }
    if coerce {
      assert CoerceTable(s, conv, t).rows == t.rows;
    }
  }

  /** A validated table has the input's columns and row count, the same missing cells,
      the columns the schema does not declare unchanged, and every check holding. */
  lemma ValidateShape(s: TableSchema, coerce: bool, conv: Converter, t: Table)
    requires ValidateTable(s, coerce, conv, t).Success?
    ensures var t' := ValidateTable(s, coerce, conv, t).value;
      && ColumnsPresent(s, t)
      && t'.cols == t.cols && |t'.rows| == |t.rows|
      && Accepts(s, t')
      && (forall i :: 0 <= i < |t.rows| ==> t'.rows[i].Keys == t.rows[i].Keys)
      && (forall i, c :: 0 <= i < |t.rows| ==> (Get(t'.rows[i], c).None? <==> Get(t.rows[i], c).None?))
      && (forall i, c :: 0 <= i < |t.rows| && SpecFor(s.columns, c).None? ==> Get(t'.rows[i], c) == Get(t.rows[i], c))
  {
  }

  lemma KeySingle(r: Row, q: Row, c: string)
    ensures Key(r, [c]) == Key(q, [c]) <==> Get(r, c) == Get(q, c)
  {
    if Get(r, c) == Get(q, c) {
      assert Key(r, [c]) == [Get(r, c)];
      assert Key(q, [c]) == [Get(q, c)];
    } else {
      assert Key(r, [c])[0] != Key(q, [c])[0];
    }
  }

  /** A one-column unique key is distinctness of that column. */
  lemma UniqueOnSingle(rows: seq<Row>, c: string)
    ensures UniqueOn(rows, [c]) <==> OnDistinct(rows, c)
  {
    forall i, j | 0 <= i < j < |rows| ensures Key(rows[i], [c]) == Key(rows[j], [c]) <==> Get(rows[i], c) == Get(rows[j], c) {
      KeySingle(rows[i], rows[j], c);
    }
  }

  /** The table with a copy of row `i` appended. */
  function WithCopy(t: Table, i: nat): Table
    requires i < |t.rows|
  {
    Table(t.cols, t.rows + [t.rows[i]])
  }

  lemma CoerceCopy(s: TableSchema, conv: Converter, t: Table, i: nat)
    requires i < |t.rows| && TableCoercible(s, conv, t)
    ensures TableCoercible(s, conv, WithCopy(t, i))
    ensures CoerceTable(s, conv, WithCopy(t, i)) == WithCopy(CoerceTable(s, conv, t), i)
  {
    var u := WithCopy(t, i);
    assert forall j :: 0 <= j < |u.rows| ==> u.rows[j] == if j < |t.rows| then t.rows[j] else t.rows[i];
  }

  /** Without a unique key, validation accepts a table with a row repeated whenever it
      accepts the table: every other check looks at one row at a time. */
  lemma {:induction false} ValidateAcceptsCopy(s: TableSchema, coerce: bool, conv: Converter, t: Table, i: nat)
    requires s.unique == [] && i < |t.rows|
    requires ValidateTable(s, coerce, conv, t).Success?
    ensures ValidateTable(s, coerce, conv, WithCopy(t, i)) == Success(WithCopy(ValidateTable(s, coerce, conv, t).value, i))
  {
    if coerce {
      CoerceCopy(s, conv, t, i);
    }
    var t' := if coerce then CoerceTable(s, conv, t) else t;
    var u' := WithCopy(t', i);
    assert forall j :: 0 <= j < |u'.rows| ==> u'.rows[j] == if j < |t'.rows| then t'.rows[j] else t'.rows[i];
    forall f | f in s.frameChecks ensures FrameCheckHolds(f, u'.rows) {
      assert FrameCheckHolds(f, t'.rows);
    }
  }

  /** With a unique key, validation rejects a table in which some row is repeated. */
  lemma ValidateRejectsCopy(s: TableSchema, coerce: bool, conv: Converter, t: Table, i: nat)
    requires s.unique != [] && i < |t.rows|
    ensures ValidateTable(s, coerce, conv, WithCopy(t, i)).Failure?
  {
    var u := WithCopy(t, i);
    if ColumnsPresent(s, u) && (coerce ==> TableCoercible(s, conv, u)) {
      var u' := if coerce then CoerceTable(s, conv, u) else u;
      var n := |t.rows|;
      assert u'.rows[i] == u'.rows[n];
      assert !UniqueOn(u'.rows, s.unique);
    }
  }

  /** The state the schema library keeps per schema object: its declaration and a
      mutable `coerce` flag that callers toggle around a validation. */
  class SchemaObject {
    const spec: TableSchema
    var coerce: bool

    constructor (spec: TableSchema, coerce: bool)
      ensures this.spec == spec && this.coerce == coerce
    {
      this.spec := spec;
      this.coerce := coerce;
    }

    /** `schema.validate(t)` under the flag's current value. */
    function Validate(conv: Converter, t: Table): Result<Table, Error>
      reads this
    {
      ValidateTable(spec, coerce, conv, t)
    }
  }
}
