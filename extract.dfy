/** The Bronze extractor: the registry of source files, reading one CSV into a table
    (NA tokens, header cleaning), the nullable-integer pre-cast of the product counts,
    Bronze validation and the loading loop over the registry. */
module Extract {
  import opened Wrappers
  import opened Strings
  import opened Values
  import opened Tables
  import opened SchemaCore
  import BronzeSchemas

  // ---------------------------------------------------------------------------
  // The registry

  /** The registered table names, in registry order. */
  const RegistryNames: seq<string> := [
    "customers", "orders", "order_items", "order_payments", "order_reviews",
    "products", "sellers", "geolocation", "product_category_name_translation"
  ]

  /** The CSV file of each registered name, at the same position. */
  const RegistryFiles: seq<string> := [
    "olist_customers_dataset.csv", "olist_orders_dataset.csv", "olist_order_items_dataset.csv",
    "olist_order_payments_dataset.csv", "olist_order_reviews_dataset.csv", "olist_products_dataset.csv",
    "olist_sellers_dataset.csv", "olist_geolocation_dataset.csv", "product_category_name_translation.csv"
  ]

  /** `REGISTRY[name]`: the file of a registered name, nothing for any other name. */
  function FileFor(name: string): (r: Option<string>)
    ensures r.Some? <==> name in RegistryNames
    ensures r.Some? ==> exists i :: 0 <= i < |RegistryNames| && RegistryNames[i] == name && RegistryFiles[i] == r.value
  {
    FileAt(name, 0)
  }

  function FileAt(name: string, k: nat): (r: Option<string>)
    requires k <= |RegistryNames|
    ensures r.Some? <==> name in RegistryNames[k..]
    ensures r.Some? ==> exists i :: k <= i < |RegistryNames| && RegistryNames[i] == name && RegistryFiles[i] == r.value
    decreases |RegistryNames| - k
  {
    if k == |RegistryNames| then None
    else if RegistryNames[k] == name then Some(RegistryFiles[k])
    else
      assert RegistryNames[k..] == [RegistryNames[k]] + RegistryNames[k + 1..];
      FileAt(name, k + 1)
  }

  /** `BRONZE_SCHEMAS.get(name)`: every registered name has its Bronze schema. */
  function BronzeSchemaFor(name: string): (r: Option<TableSchema>)
    ensures r.Some? <==> name in RegistryNames
  {
    if name == "customers" then Some(BronzeSchemas.Customers)
    else if name == "orders" then Some(BronzeSchemas.Orders)
    else if name == "order_items" then Some(BronzeSchemas.OrderItems)
    else if name == "order_payments" then Some(BronzeSchemas.OrderPayments)
    else if name == "order_reviews" then Some(BronzeSchemas.OrderReviews)
    else if name == "products" then Some(BronzeSchemas.Products)
    else if name == "sellers" then Some(BronzeSchemas.Sellers)
    else if name == "geolocation" then Some(BronzeSchemas.Geolocation)
    else if name == "product_category_name_translation" then Some(BronzeSchemas.CategoryTranslation)
    else None
  }

  // ---------------------------------------------------------------------------
  // Reading one CSV file

  /** A CSV file once split into fields: the header fields and the records' fields. */
  datatype RawCsv = RawCsv(header: seq<string>, records: seq<seq<string>>)

  /** The tokens read as missing in addition to pandas' defaults. */
  const ExtraNaTokens: seq<string> := ["", " ", "NA", "N/A", "null", "None"]

  /** pandas' default missing-value tokens (`keep_default_na=True`). */
  const DefaultNaTokens: seq<string> := [
    "", "#N/A", "#N/A N/A", "#NA", "-1.#IND", "-1.#QNAN", "-NaN", "-nan", "1.#IND", "1.#QNAN",
    "<NA>", "N/A", "NA", "NULL", "NaN", "None", "n/a", "nan", "null"
  ]

  predicate IsNaToken(s: string) {
    s in ExtraNaTokens || s in DefaultNaTokens
  }

  /** `skipinitialspace=True`: the blanks right after a delimiter are dropped. */
  function SkipInitial(s: string): (r: string)
    ensures |r| <= |s| && r == s[|s| - |r|..]
    ensures r != [] ==> r[0] != ' '
  {
    if s != [] && s[0] == ' ' then SkipInitial(s[1..]) else s
  }

  /** One field as a cell: missing when it is an NA token, otherwise the value the
      reader infers for it. */
  function FieldCell(infer: string -> Value, field: string): (c: Cell)
    ensures c.None? <==> IsNaToken(SkipInitial(field))
    ensures c.Some? ==> c.value == infer(SkipInitial(field))
  {
    var f := SkipInitial(field);
    if IsNaToken(f) then None else Some(infer(f))
  }

  /** `str.replace("\U{FEFF}", "").str.strip()` on one header. */
  function CleanHeader(h: string): (r: string)
    ensures '\U{FEFF}' !in r
    ensures r != [] ==> !IsSpace(r[0]) && !IsSpace(r[|r| - 1])
  {
    var s := RemoveChar(h, '\U{FEFF}');
    StripMembers(s);
    Strip(s)
  }

  /** Cleaning a clean header changes nothing, so cleaning twice is cleaning once. */
  lemma CleanHeaderIdempotent(h: string)
    ensures CleanHeader(CleanHeader(h)) == CleanHeader(h)
  {
    var c := CleanHeader(h);
    assert RemoveChar(c, '\U{FEFF}') == c;
    StripFixed(c);
  }

  /** The cleaned headers of a file, in file order. */
  function Headers(raw: RawCsv): (hs: seq<string>)
    ensures |hs| == |raw.header|
    ensures forall i :: 0 <= i < |hs| ==> hs[i] == CleanHeader(SkipInitial(raw.header[i]))
  {
    seq(|raw.header|, i requires 0 <= i < |raw.header| => CleanHeader(SkipInitial(raw.header[i])))
  }

  /** Field `i` of a record; a short record reads missing past its end. */
  function FieldAt(infer: string -> Value, rec: seq<string>, i: nat): Cell {
    if i < |rec| then FieldCell(infer, rec[i]) else None
  }

  /** One record as a row keyed by the cleaned headers. */
  function RecordRow(infer: string -> Value, hs: seq<string>, rec: seq<string>): (r: Row)
    ensures r.Keys == set c | c in hs
  {
    if hs == [] then map[]
    else
      var n := |hs| - 1;
      assert forall c :: c in hs <==> c in hs[..n] || c == hs[n] by {
        assert hs == hs[..n] + [hs[n]];
      }
      RecordRow(infer, hs[..n], rec)[hs[n] := FieldAt(infer, rec, n)]
  }

  /** With distinct headers, column `i` of a record's row holds field `i` of the
      record (missing when the record is short). */
  lemma {:induction false} RecordRowFields(infer: string -> Value, hs: seq<string>, rec: seq<string>)
    requires forall i, j :: 0 <= i < j < |hs| ==> hs[i] != hs[j]
    ensures forall i :: 0 <= i < |hs| ==> Get(RecordRow(infer, hs, rec), hs[i]) == FieldAt(infer, rec, i)
  {
    if hs != [] {
      var n := |hs| - 1;
      var r := RecordRow(infer, hs, rec);
      RecordRowFields(infer, hs[..n], rec);
      forall i | 0 <= i < |hs| ensures Get(r, hs[i]) == FieldAt(infer, rec, i) {
        if i < n {
          assert hs[..n][i] == hs[i] && hs[i] != hs[n];
        }
      }
    }
  }

  /** One parsed file as a table: the cleaned headers and one row per record. */
  function ReadRaw(infer: string -> Value, raw: RawCsv): Table {
    var hs := Headers(raw);
    Table(hs, seq(|raw.records|, k requires 0 <= k < |raw.records| => RecordRow(infer, hs, raw.records[k])))
  }

  /** `read_csv_table(name)`: an unregistered name fails before any file is consulted;
      then the registered file is read (a missing file fails). */
  function ReadCsvTable(files: map<string, RawCsv>, infer: string -> Value, name: string): (r: Result<Table, Error>)
    ensures name !in RegistryNames ==> r == Failure(UnknownTable(name))
    ensures name in RegistryNames && FileFor(name).value !in files ==> r == Failure(MissingFile(FileFor(name).value))
    ensures r.Success? <==> name in RegistryNames && FileFor(name).value in files
  {
    match FileFor(name)
    case None => Failure(UnknownTable(name))
    case Some(file) =>
      if file !in files then Failure(MissingFile(file)) else Success(ReadRaw(infer, files[file]))
  }

  /** A successful read is the registered file's table. */
  lemma ReadCsvTableFile(files: map<string, RawCsv>, infer: string -> Value, name: string)
    requires ReadCsvTable(files, infer, name).Success?
    ensures ReadCsvTable(files, infer, name).value == ReadRaw(infer, files[FileFor(name).value])
  {
  }

  /** The headers of a read file: one per header field, in file order, each cleaned,
      free of byte-order marks and left unchanged by a second cleaning. */
  lemma ReadRawHeaders(infer: string -> Value, raw: RawCsv)
    ensures var t := ReadRaw(infer, raw);
      && |t.cols| == |raw.header|
      && (forall i :: 0 <= i < |t.cols| ==> t.cols[i] == CleanHeader(SkipInitial(raw.header[i])))
      && (forall i :: 0 <= i < |t.cols| ==> '\U{FEFF}' !in t.cols[i] && CleanHeader(t.cols[i]) == t.cols[i])
  {
    var t := ReadRaw(infer, raw);
    forall i | 0 <= i < |t.cols| ensures CleanHeader(t.cols[i]) == t.cols[i] {
      CleanHeaderIdempotent(SkipInitial(raw.header[i]));
    }
  }

  /** The rows of a read file: one per record and, when the cleaned headers are
      distinct, field `i` of each record under header `i`, missing exactly where the
      field is an NA token. */
  lemma ReadRawRows(infer: string -> Value, raw: RawCsv)
    ensures var t := ReadRaw(infer, raw);
      && |t.rows| == |raw.records|
      && ((forall i, j :: 0 <= i < j < |t.cols| ==> t.cols[i] != t.cols[j]) ==>
            forall k, i :: 0 <= k < |t.rows| && 0 <= i < |t.cols| ==>
              Get(t.rows[k], t.cols[i]) == FieldAt(infer, raw.records[k], i))
  {
    var t := ReadRaw(infer, raw);
    if forall i, j :: 0 <= i < j < |t.cols| ==> t.cols[i] != t.cols[j] {
      forall k | 0 <= k < |t.rows|
        ensures forall i :: 0 <= i < |t.cols| ==> Get(t.rows[k], t.cols[i]) == FieldAt(infer, raw.records[k], i)
      {
        ReadRawRowAt(infer, raw, k);
      }
    }
  }

  lemma ReadRawRowAt(infer: string -> Value, raw: RawCsv, k: nat)
    requires k < |raw.records|
    requires var hs := Headers(raw); forall i, j :: 0 <= i < j < |hs| ==> hs[i] != hs[j]
    ensures var t := ReadRaw(infer, raw);
      forall i :: 0 <= i < |t.cols| ==> Get(t.rows[k], t.cols[i]) == FieldAt(infer, raw.records[k], i)
  {
    var hs := Headers(raw);
    assert ReadRaw(infer, raw).rows[k] == RecordRow(infer, hs, raw.records[k]);
    RecordRowFields(infer, hs, raw.records[k]);
  }

  /** Every listed token, with or without leading blanks, reads as a missing cell. */
  lemma NaTokensMissing(infer: string -> Value, tok: string, blanks: nat)
    requires tok in ExtraNaTokens
    ensures FieldCell(infer, seq(blanks, _ => ' ') + tok) == None
  {
    SkipBlanks(blanks, tok);
    ExtraTokenSkipped(tok);
  }

  /** Every extra token reads as an NA token once leading blanks are skipped. */
  lemma ExtraTokenSkipped(tok: string)
    requires tok in ExtraNaTokens
    ensures IsNaToken(SkipInitial(tok))
  {
    assert tok == ExtraNaTokens[0] || tok == ExtraNaTokens[1] || tok == ExtraNaTokens[2]
        || tok == ExtraNaTokens[3] || tok == ExtraNaTokens[4] || tok == ExtraNaTokens[5];
    if tok == " " {
      assert SkipInitial(tok) == SkipInitial("");
      assert ExtraNaTokens[0] == "";
    } else if tok != "" {
      assert tok[0] != ' ';
      assert SkipInitial(tok) == tok;
    }
  }

  lemma {:induction false} SkipBlanks(blanks: nat, tok: string)
    ensures SkipInitial(seq(blanks, _ => ' ') + tok) == SkipInitial(tok)
  {
    if blanks > 0 {
      var f := seq(blanks, _ => ' ') + tok;
      assert f[0] == ' ';
      assert f[1..] == seq(blanks - 1, _ => ' ') + tok;
      SkipBlanks(blanks - 1, tok);
    } else {
      assert seq(blanks, _ => ' ') + tok == tok;
    }
  }

  // ---------------------------------------------------------------------------
  // The nullable-integer pre-cast

  /** A real as an integer, when it has no fractional part; `astype("Int64")` refuses
      any other. */
  function IntegralReal(x: real): (r: Option<Cell>)
    ensures r.Some? ==> r.value == Some(Int(x.Floor)) && x == x.Floor as real
  {
    if x == x.Floor as real then Some(Some(Int(x.Floor))) else None
  }

  /** One cell through `replace(r"^\s*$", NA)`, `to_numeric(errors="coerce")` and
      `astype("Int64")`: blank text and unparseable text become missing, integers stay,
      integral numbers become integers; `None` is a cast the library refuses. */
  function NullableInt(conv: Converter, c: Cell): (r: Option<Cell>)
    ensures r.Some? ==> Typed(TInt, r.value)
    ensures c.None? ==> r == Some(None)
    ensures c.Some? && c.value.Int? ==> r == Some(c)
    ensures c.Some? && c.value.Text? && IsBlank(c.value.s) ==> r == Some(None)
    ensures c.Some? && c.value.Text? && ParseInt(c.value.s).Some? && !IsBlank(c.value.s) ==>
              r == Some(Some(Int(ParseInt(c.value.s).value)))
  {
    match c
    case None => Some(None)
    case Some(Int(_)) => Some(c)
    case Some(Bool(b)) => Some(Some(Int(if b then 1 else 0)))
    case Some(Real(x)) => IntegralReal(x)
    case Some(Text(s)) =>
      if IsBlank(s) then Some(None)
      else (match ParseInt(s)
        case Some(n) => Some(Some(Int(n)))
        case None => (match conv.parseReal(s) case Some(x) => IntegralReal(x) case None => Some(None)))
    case Some(Time(_)) => None
  }

  /** The text of an integer casts back to that integer. */
  lemma NullableIntText(conv: Converter, n: int)
    ensures NullableInt(conv, Some(Text(IntText(n)))) == Some(Some(Int(n)))
  {
    ParseIntText(n);
    var t := IntText(n);
    if n < 0 {
      assert t[0] == '-' && !IsSpace('-');
    } else {
      DigitsValueOf(n);
      assert IsDigitChar(t[0]);
    }
    assert !IsBlank(t);
  }

  /** The cast is idempotent: a cast cell casts to itself. */
  lemma NullableIntIdempotent(conv: Converter, c: Cell)
    requires NullableInt(conv, c).Some?
    ensures NullableInt(conv, NullableInt(conv, c).value) == NullableInt(conv, c)
  {
  }

  /** Every cell of column `c` can be cast. */
  predicate Castable(conv: Converter, t: Table, c: string) {
    forall i :: 0 <= i < |t.rows| ==> NullableInt(conv, Get(t.rows[i], c)).Some?
  }

  /** Column `c` cast, when present; an absent column is left alone. */
  function CastColumn(conv: Converter, t: Table, c: string): (r: Result<Table, Error>)
    ensures r.Failure? <==> c in t.cols && !Castable(conv, t, c)
    ensures r.Failure? ==> r.error == CastError(c)
    ensures r.Success? ==> r.value.cols == t.cols && |r.value.rows| == |t.rows|
    ensures r.Success? ==> forall i :: 0 <= i < |t.rows| ==>
              Get(r.value.rows[i], c) == if c in t.cols then NullableInt(conv, Get(t.rows[i], c)).value else Get(t.rows[i], c)
    ensures r.Success? ==> forall i, d :: 0 <= i < |t.rows| && d != c ==> Get(r.value.rows[i], d) == Get(t.rows[i], d)
  {
    if c !in t.cols then Success(t)
    else if !Castable(conv, t, c) then Failure(CastError(c))
    else Success(WithColumn(t, c, seq(|t.rows|, i requires 0 <= i < |t.rows| => NullableInt(conv, Get(t.rows[i], c)).value)))
  }

  /** `to_nullable_int(df, cols)` as a value: the listed columns cast in order. */
  function NullableInts(conv: Converter, t: Table, cols: seq<string>): Result<Table, Error>
    decreases |cols|
  {
    if cols == [] then Success(t)
    else
      var u :- CastColumn(conv, t, cols[0]);
      NullableInts(conv, u, cols[1..])
  }

  /** The pre-cast touches only the listed columns that exist: it succeeds exactly when
      each of their cells can be cast, then holds each cast cell there and every other
      cell unchanged; a failure names a listed, present column. */
  lemma {:induction false} NullableIntsSpec(conv: Converter, t: Table, cols: seq<string>)
    ensures var r := NullableInts(conv, t, cols);
      && (r.Success? <==> forall c :: c in cols && c in t.cols ==> Castable(conv, t, c))
      && (r.Failure? ==> exists c :: c in cols && c in t.cols && r.error == CastError(c))
      && (r.Success? ==> r.value.cols == t.cols && |r.value.rows| == |t.rows|)
      && (r.Success? ==> forall i, c :: 0 <= i < |t.rows| && c in cols && c in t.cols ==>
            Get(r.value.rows[i], c) == NullableInt(conv, Get(t.rows[i], c)).value)
      && (r.Success? ==> forall i, d :: 0 <= i < |t.rows| && d !in cols ==> Get(r.value.rows[i], d) == Get(t.rows[i], d))
    decreases |cols|
  {
    if cols != [] {
      var c := cols[0];
      assert forall d :: d in cols <==> d == c || d in cols[1..] by { assert cols == [c] + cols[1..]; }
      var u := CastColumn(conv, t, c);
      if u.Success? {
        NullableIntsSpec(conv, u.value, cols[1..]);
        forall d | d in cols[1..] && d in t.cols
          ensures Castable(conv, u.value, d) <==> (d == c || Castable(conv, t, d))
        {
          if d == c {
            forall i | 0 <= i < |t.rows| ensures NullableInt(conv, Get(u.value.rows[i], d)).Some? {
              if c in t.cols { NullableIntIdempotent(conv, Get(t.rows[i], c)); }
            }
          }
        }
        var r := NullableInts(conv, t, cols);
        if r.Success? {
          forall i, d | 0 <= i < |t.rows| && d in cols && d in t.cols
            ensures Get(r.value.rows[i], d) == NullableInt(conv, Get(t.rows[i], d)).value
          {
            if d == c && d in cols[1..] {
              NullableIntIdempotent(conv, Get(t.rows[i], c));
            }
          }
        }
      }
    }
  }

  /** `to_nullable_int`: casts the listed columns one after the other. */
  method ToNullableInt(conv: Converter, df: Table, cols: seq<string>) returns (r: Result<Table, Error>)
    ensures r == NullableInts(conv, df, cols)
  {
    var t := df;
    var k := 0;
    while k < |cols|
      invariant 0 <= k <= |cols|
      invariant NullableInts(conv, df, cols) == NullableInts(conv, t, cols[k..])
    {
      assert cols[k..][1..] == cols[k + 1..];
      var u := CastColumn(conv, t, cols[k]);
      if u.Failure? {
        return Failure(u.error);
      }
      t := u.value;
      k := k + 1;
    }
    r := Success(t);
  }

  // ---------------------------------------------------------------------------
  // Bronze validation and the loading loop

  /** The live Bronze schema objects: one per registered name, holding that name's
      schema. */
  ghost predicate BronzeRegistry(reg: map<string, SchemaObject>) {
    forall name :: (name in reg <==> name in RegistryNames) && (name in reg ==> reg[name].spec == BronzeSchemaFor(name).value)
  }

  /** `BRONZE_SCHEMAS.get(name)` on a live registry. */
  function SchemaOf(reg: map<string, SchemaObject>, name: string): (r: Option<TableSchema>)
    ensures r.Some? <==> name in reg
  {
    if name in reg then Some(reg[name].spec) else None
  }

  /** On the Bronze registry, the lookup finds exactly the Bronze schema of each name. */
  lemma RegistrySchemas(reg: map<string, SchemaObject>, name: string)
    requires BronzeRegistry(reg)
    ensures SchemaOf(reg, name) == BronzeSchemaFor(name)
  {
  }

  /** What `validate_bronze` makes of one table: unchanged without a schema; products
      validated with coercion off; any other table under its schema's `coerce` flag. */
  function BronzeValidated(conv: Converter, name: string, schema: Option<TableSchema>, coerce: bool, t: Table)
    : (r: Result<Table, Error>)
    ensures schema.None? ==> r == Success(t)
    ensures schema.Some? && name == "products" ==> r == ValidateTable(schema.value, false, conv, t)
    ensures schema.Some? && name != "products" ==> r == ValidateTable(schema.value, coerce, conv, t)
  {
    match schema
    case None => Success(t)
    case Some(s) => ValidateTable(s, name != "products" && coerce, conv, t)
  }

  /** `validate_bronze`: the products schema object has `coerce` cleared around its
      validation and put back afterwards, whether validation succeeds or fails. */
  method ValidateBronze(reg: map<string, SchemaObject>, conv: Converter, name: string, df: Table) returns (res: Result<Table, Error>)
    modifies set n | n in reg :: reg[n]
    ensures forall n :: n in reg ==> reg[n].coerce == old(reg[n].coerce)
    ensures res == BronzeValidated(conv, name, SchemaOf(reg, name), name in reg && old(reg[name].coerce), df)
  {
    if name !in reg {
      return Success(df);
    }
    var schema := reg[name];
    if name == "products" {
      var oldCoerce := schema.coerce;
      schema.coerce := false;
      res := schema.Validate(conv, df);
      schema.coerce := oldCoerce;
    } else {
      res := schema.Validate(conv, df);
    }
  }

  /** The integer columns of products that are pre-cast before validation. */
  const ProductIntCols: seq<string> := ["product_name_lenght", "product_description_lenght", "product_photos_qty"]

  /** One iteration of `load_all` as a value: read, pre-cast products, validate. */
  function Loaded(conv: Converter, files: map<string, RawCsv>, infer: string -> Value, name: string,
                  schema: Option<TableSchema>, coerce: bool): Result<Table, Error>
  {
    var df :- ReadCsvTable(files, infer, name);
    var cast :- if name == "products" then NullableInts(conv, df, ProductIntCols) else Success(df);
    BronzeValidated(conv, name, schema, coerce, cast)
  }

  /** Only products are pre-cast: every other table is validated as read. */
  lemma LoadedOthers(conv: Converter, files: map<string, RawCsv>, infer: string -> Value, name: string, s: TableSchema, coerce: bool)
    requires name != "products"
    ensures Loaded(conv, files, infer, name, Some(s), coerce) ==
      if ReadCsvTable(files, infer, name).Failure? then Failure(ReadCsvTable(files, infer, name).error)
      else ValidateTable(s, coerce, conv, ReadCsvTable(files, infer, name).value)
  {
  }

  /** Products reach validation with their three count columns already nullable
      integers. */
  lemma PreCastTyped(conv: Converter, t: Table)
    requires NullableInts(conv, t, ProductIntCols).Success?
    ensures var cast := NullableInts(conv, t, ProductIntCols).value;
      forall i, c :: 0 <= i < |cast.rows| && c in ProductIntCols && c in cast.cols ==> Typed(TInt, Get(cast.rows[i], c))
  {
    NullableIntsSpec(conv, t, ProductIntCols);
  }

  /** Products are pre-cast, then validated without coercion whatever the flag says. */
  lemma LoadedProducts(conv: Converter, files: map<string, RawCsv>, infer: string -> Value, s: TableSchema, coerce: bool)
    requires ReadCsvTable(files, infer, "products").Success?
    requires NullableInts(conv, ReadCsvTable(files, infer, "products").value, ProductIntCols).Success?
    ensures Loaded(conv, files, infer, "products", Some(s), coerce) ==
      ValidateTable(s, false, conv, NullableInts(conv, ReadCsvTable(files, infer, "products").value, ProductIntCols).value)
  {
  }

  /** One iteration of `load_all`, against the flags the registry holds on entry. */
  method LoadOne(reg: map<string, SchemaObject>, conv: Converter, files: map<string, RawCsv>, infer: string -> Value, name: string,
                 ghost flags: map<string, bool>)
    returns (res: Result<Table, Error>)
    requires name in reg
    requires forall n :: n in reg ==> n in flags && flags[n] == reg[n].coerce
    modifies set n | n in reg :: reg[n]
    ensures forall n :: n in reg ==> reg[n].coerce == old(reg[n].coerce)
    ensures res == LoadedOf(flags, reg, conv, files, infer, name)
  {
    var df :- ReadCsvTable(files, infer, name);
    if name == "products" {
      df :- ToNullableInt(conv, df, ProductIntCols);
    }
    res := ValidateBronze(reg, conv, name, df);
  }

  /** The load of `names[k]`, read against its planned outcome. */
  method LoadAt(reg: map<string, SchemaObject>, conv: Converter, files: map<string, RawCsv>, infer: string -> Value,
                names: seq<string>, k: nat, ghost flags: map<string, bool>, ghost want: seq<Result<Table, Error>>)
    returns (v: Result<Table, Error>)
    requires k < |names| == |want| && names[k] in reg
    requires forall n :: n in reg ==> n in flags && flags[n] == reg[n].coerce
    requires forall i {:trigger LoadedOf(flags, reg, conv, files, infer, names[i])} :: 0 <= i < |names| ==>
               want[i] == LoadedOf(flags, reg, conv, files, infer, names[i])
    modifies set n | n in reg :: reg[n]
    ensures forall n :: n in reg ==> reg[n].coerce == old(reg[n].coerce)
    ensures v == want[k]
  {
    v := LoadOne(reg, conv, files, infer, names[k], flags);
  }

  /** The loop of `load_all` over distinct registered names, against the outcomes `want`
      their loads have: each table in turn, the first failure aborting; `order` is the
      order in which tables were stored. */
  method LoadNames(reg: map<string, SchemaObject>, conv: Converter, files: map<string, RawCsv>, infer: string -> Value,
                   names: seq<string>, ghost flags: map<string, bool>, ghost want: seq<Result<Table, Error>>)
    returns (r: Result<map<string, Table>, Error>, order: seq<string>)
    requires forall n :: n in names ==> n in reg
    requires forall i, j :: 0 <= i < j < |names| ==> names[i] != names[j]
    requires flags == Flags(reg)
    requires |want| == |names|
    requires forall i {:trigger LoadedOf(flags, reg, conv, files, infer, names[i])} :: 0 <= i < |names| ==>
               want[i] == LoadedOf(flags, reg, conv, files, infer, names[i])
    modifies set n | n in reg :: reg[n]
    ensures forall n :: n in reg ==> reg[n].coerce == old(reg[n].coerce)
    ensures r.Success? <==> forall i :: 0 <= i < |names| ==> want[i].Success?
    ensures r.Failure? ==> exists i :: (0 <= i < |names| && want[i] == Failure(r.error) && forall j :: 0 <= j < i ==> want[j].Success?)
    ensures r.Success? ==> r.value.Keys == set n | n in names
    ensures r.Success? ==> forall i :: 0 <= i < |names| ==> Success(r.value[names[i]]) == want[i]
    ensures r.Success? ==> order == names
  {
    var out: map<string, Table> := map[];
    order := [];
    var k := 0;
    while k < |names|
      invariant 0 <= k <= |names|
      invariant forall n :: n in reg ==> reg[n].coerce == old(reg[n].coerce) == flags[n]
      invariant order == names[..k]
      invariant out.Keys == set n | n in names[..k]
      invariant forall i :: 0 <= i < k ==> Success(out[names[i]]) == want[i]
      invariant forall j :: 0 <= j < k ==> want[j].Success?
    {
      var name := names[k];
      assert forall i :: 0 <= i < k ==> names[i] != name;
      var v := LoadAt(reg, conv, files, infer, names, k, flags, want);
      if v.Failure? {
        return Failure(v.error), order;
      }
      out := out[name := v.value];
      order := order + [name];
      assert names[..k + 1] == names[..k] + [name];
      k := k + 1;
    }
    assert names[..k] == names;
    r := Success(out);
  }

  /** `load_all`: every registered table, in registry order. */
  method LoadAll(reg: map<string, SchemaObject>, conv: Converter, files: map<string, RawCsv>, infer: string -> Value)
    returns (r: Result<map<string, Table>, Error>, order: seq<string>)
    requires forall n :: n in RegistryNames ==> n in reg
    modifies set n | n in reg :: reg[n]
    ensures forall n :: n in reg ==> reg[n].coerce == old(reg[n].coerce)
    ensures r.Success? <==> forall i :: 0 <= i < |RegistryNames| ==> LoadedOf(old(Flags(reg)), reg, conv, files, infer, RegistryNames[i]).Success?
    ensures r.Failure? ==> exists i :: (0 <= i < |RegistryNames|
              && LoadedOf(old(Flags(reg)), reg, conv, files, infer, RegistryNames[i]) == Failure(r.error)
              && forall j :: 0 <= j < i ==> LoadedOf(old(Flags(reg)), reg, conv, files, infer, RegistryNames[j]).Success?)
    ensures r.Success? ==> r.value.Keys == set n | n in RegistryNames
    ensures r.Success? ==> forall i :: 0 <= i < |RegistryNames| ==>
              Success(r.value[RegistryNames[i]]) == LoadedOf(old(Flags(reg)), reg, conv, files, infer, RegistryNames[i])
    ensures r.Success? ==> order == RegistryNames
  {
    ghost var flags := Flags(reg);
    ghost var want := seq(|RegistryNames|, i requires 0 <= i < |RegistryNames| =>
                            LoadedOf(flags, reg, conv, files, infer, RegistryNames[i]));
    r, order := LoadNames(reg, conv, files, infer, RegistryNames, flags, want);
  }

  /** The `coerce` flag of every registered schema object. */
  function Flags(reg: map<string, SchemaObject>): (f: map<string, bool>)
    reads set n | n in reg :: reg[n]
    ensures f.Keys == reg.Keys && forall n :: n in reg ==> f[n] == reg[n].coerce
  {
    map n | n in reg :: reg[n].coerce
  }

  /** The load of `name` under the registry's schemas and the given flags. */
  function LoadedOf(flags: map<string, bool>, reg: map<string, SchemaObject>, conv: Converter, files: map<string, RawCsv>,
                    infer: string -> Value, name: string): Result<Table, Error>
  {
    Loaded(conv, files, infer, name, SchemaOf(reg, name), name in flags && flags[name])
  }
}
