# Olist Bronze → Silver → Gold, modelled in Dafny

This project models the core of a pandas/pandera cleaning pipeline for the Olist
Brazilian e-commerce dataset. Data flows through three tiers:

* **Bronze** (`src/extract.py`, `src/schemas/bronze.py`). The nine registered CSV
  files are read with missing-value tokens and header cleaning. The product counters
  are pre-cast to nullable integers. Each table is then validated against its
  Bronze schema.
* **Silver** (`src/transform.py`, `src/schemas/silver.py`). Each table is validated
  with automatic typing. Then four transforms run:
  * geolocation is deduplicated on (zip, city, state);
  * reviews are made canonical, keeping the latest version of each `review_id`;
  * orders get four additive `qc_*` quality flags;
  * products are left-joined with the category translation.
* **Gold** (`src/model.py`, `src/schemas/gold.py`). The pipeline builds a star schema:
  * three deduplicated dimensions;
  * the `dim_date` calendar, keyed by `YYYYMMDD` integers;
  * the order and order-item fact tables;
  * two auxiliary tables.

  Every Gold table is validated with strict types, non-null keys and primary-key
  uniqueness.

A dataframe is `Tables.Table(cols, rows)`. `cols` lists the column names in order.
Each row is a `map<string, Cell>`, where a `Cell` is `Option<Value>` (`None` is
pandas' NaN/NaT/NA) and a column a row lacks reads as missing. A pandera schema is
`SchemaCore.TableSchema`, with per-column type, nullability and checks, a unique key
and whole-frame checks. `SchemaCore.ValidateTable` is the non-lazy `validate`: it
optionally coerces, then checks, then returns the same rows or a single
`SchemaError`. A schema object whose `coerce` attribute is flipped in place is the
class `SchemaCore.SchemaObject`.

Some conversions are not defined by the model and are parameters instead. Timestamp
parsing, float parsing and the text form of a value form the datatype
`SchemaCore.Converter`. pandas' dtype inference of a CSV field is a function
`infer: string -> Value`. The bronze directory is a map from file name to parsed
`Extract.RawCsv` (header and records).

The statements about a whole tier are these:
* `Extract.LoadAll` is `load_all`.
* `Transform.BuildSilver` is `build_silver`.
* `Model.BuildGold` is `build_gold`.

Each is proved against a specification function (`Extract.LoadedOf`,
`Transform.SilverValidated`/`SilverOutcome` and `Model.GoldOf`). Lemmas then tie
those functions to what the schemas guarantee.

Where the comments in `src/schemas/bronze.py` and the code disagree, the code is
followed: the comments describe Bronze as performing no conversion, yet every Bronze
schema is declared with `coerce=True`. The model uses the declared flag.

Coercion to an integer column is conversion to numpy `int64`, which has no missing
value, so it fails on a missing cell (`SchemaCore.CoerceCell`). This is why
`src/extract.py:80-88` and `src/transform.py:207-214` turn coercion off while
validating `products`, whose counters are pre-cast to the nullable `Int64`. Every
other table is validated with coercion on, so a missing cell in one of its integer
columns makes its validation fail.

## Model

| member | source | states |
|---|---|---|
| Strings.Strip | src/extract.py:61 | the result is a contiguous slice of the input with no surrounding whitespace |
| Strings.StripIdempotent | src/extract.py:61 | stripping twice is the same as stripping once |
| Strings.StripEmptyIffBlank | src/schemas/bronze.py:246-267 | a text strips to "" exactly when it is blank, which is how the `str.strip() != ""` checks read |
| Strings.StripFixed | src/extract.py:61 | a text with no surrounding whitespace is left unchanged |
| Strings.RemoveChar | src/extract.py:61 | the removed character no longer occurs, no new character appears, and a text without it is unchanged |
| Strings.ParseInt | src/extract.py:71 | an integer is read exactly from an optionally signed run of digits; with `Strings.ParseIntText` and `Strings.ParseIntSigned`, the value read is the one the digits denote |
| Strings.DigitsValueOf | src/extract.py:71 | the base-10 digits of a natural number read back as that number |
| Strings.ParseIntText | src/extract.py:71 | the text of every integer, sign included, parses back to that integer |
| Strings.LeadingZero | src/extract.py:71 | a leading zero does not change the value of a digit run |
| Strings.ParseIntSigned | src/extract.py:71 | a digit run reads as its value, with a leading `-` as its negation and a leading `+` as itself |
| Strings.StrLtIrreflexive | src/transform.py:80-84 | string order used by `sort_values` is irreflexive |
| Strings.StrLtTransitive | src/transform.py:80-84 | string order is transitive |
| Strings.StrLtTotal | src/transform.py:80-84 | string order is total on distinct strings |
| Values.TimeLtTotal | src/transform.py:139-169 | timestamp order is total and asymmetric |
| Values.ValueLtIrreflexive | src/transform.py:80-84 | the sort order on values is irreflexive |
| Values.ValueLtTransitive | src/transform.py:80-84 | the sort order on values is transitive |
| Values.ValueLtTotal | src/transform.py:80-84 | the sort order on distinct values is total |
| Values.CellLtIrreflexive | src/transform.py:80-84 | the cell order (missing last) is irreflexive |
| Values.CellLtTransitive | src/transform.py:80-84 | the cell order is transitive |
| Values.CellLtTotal | src/transform.py:80-84 | the cell order is total on distinct cells |
| Values.CellLtAsymmetric | src/transform.py:80-84 | no two cells are each before the other |
| Tables.Column | src/model.py:149-153 | a column has one cell per row |
| Tables.DedupFirst | src/transform.py:61 | `drop_duplicates(keep="first")`: an order-preserving subsequence, one row per key, the same key set, each survivor the first row with its key |
| Tables.DedupLast | src/transform.py:86 | `drop_duplicates(keep="last")`: an order-preserving subsequence, one row per key, the same key set, each survivor the last row with its key |
| Tables.DedupFrom | src/transform.py:61 | deduplication after keys already seen yields distinct keys, the unseen keys of the input, in input order |
| Tables.FirstIndex | src/transform.py:61 | the first position of a present key |
| Tables.LastIndex | src/transform.py:86 | the last position of a present key |
| Tables.Select | src/model.py:33 | `df[cols]`: fails with a missing column from the list exactly when one is absent; otherwise the listed columns in order, one row per input row, each holding exactly the listed cells |
| Tables.WithColumn | src/model.py:82-86 | assigning a column appends it if new, keeps every row, sets the column's cells and changes no other cell |
| Tables.WithColumnWellFormed | src/model.py:82-86 | assigning a column keeps the table well formed |
| Tables.Drop | src/model.py:110 | `drop(columns=[c])` succeeds exactly when `c` is present and removes only `c` |
| Tables.Remove | src/model.py:110 | the remaining column names are exactly the others |
| Tables.Matches | src/model.py:92-96 | the right rows joined to a key all carry that key, and none when no right row has it |
| Tables.NewCols | src/model.py:92-96 | the columns a merge adds are the right-hand ones the left lacks |
| Tables.LeftJoin | src/model.py:92-96 | `merge(how="left")` succeeds exactly when both sides have the key column |
| Tables.MatchesUnique | src/model.py:92-96 | on a unique right key exactly one right row matches each present key |
| Tables.JoinRowsUnique | src/model.py:92-96 | with a unique right key the join keeps one output row per left row, each the left row extended by its match |
| Tables.JoinRowsSingles | src/model.py:92-96 | when the right key is distinct, the join has one row per left row, in order: the left row extended by its match |
| Tables.JoinOneSingle | src/model.py:92-96 | against a distinct right key a left row gives exactly one output row: itself extended by its match, or by missing cells |
| Tables.JoinRowsLength | src/model.py:92-96 | the join has at least one row per left row |
| Tables.JoinRowsNoMatch | src/model.py:92-96 | when no left row matches, each left row comes out once, extended by missing cells |
| Tables.JoinRowsKeepsLeft | src/model.py:92-96 | a left join never loses a left row, and a left row without a match is padded with missing cells |
| Tables.MatchOfUnique | src/model.py:92-96 | the right row matched to a key is the one that carries it, or no row |
| Tables.LeftJoinUnique | src/model.py:92-96 | with a unique right key each output row is its left row extended by its matching right row |
| Tables.LeftJoinCell | src/model.py:92-96 | each cell of a left join comes from the left row, from the matching right row, or is missing when nothing matches |
| Tables.SubseqMembers | src/transform.py:61 | a subsequence holds no new row and is no longer |
| Tables.SubseqPairwise | src/transform.py:61 | a pairwise property of a sequence holds on every subsequence |
| Tables.KeySetCons | src/transform.py:61 | the key set of a sequence is its head's key plus its tail's key set |
| SchemaCore.ChecksHoldAll | src/schemas/bronze.py:71-86 | a column's list of checks holds exactly when every check holds |
| SchemaCore.CoerceValue | src/schemas/silver.py:5-10 | coercion yields a value of the declared type and leaves a value already of that type alone |
| SchemaCore.CoerceCell | src/extract.py:80-81 | coercion keeps a missing cell missing, except that it fails on a missing cell in an integer (`int64`) column; it makes the rest typed and leaves settled cells alone |
| SchemaCore.CoerceMissingInt | src/extract.py:80-88 | a missing cell in a declared integer column makes coercing validation fail |
| SchemaCore.SpecFor | src/schemas/gold.py:43-51 | the column spec found for a name is declared under that name, and none means no spec has it |
| SchemaCore.CoerceRowTyped | src/schemas/gold.py:43-51 | a row whose declared cells are typed, with no missing integer, is coerced to itself |
| SchemaCore.ValidateTyped | src/transform.py:212-216 | on a table already typed and without missing integers, validation returns the table exactly when the schema's checks accept it, otherwise a `SchemaError` |
| SchemaCore.ValidateShape | src/transform.py:212-216 | a successful validation had every declared column, keeps columns, row count, nulls and undeclared cells, and its result satisfies the schema |
| SchemaCore.KeySingle | src/schemas/gold.py:50 | two rows share a one-column key exactly when they share that cell |
| SchemaCore.UniqueOnSingle | src/schemas/gold.py:50 | `unique=[c]` means column `c` has no repeated value |
| SchemaCore.CoerceCopy | src/schemas/gold.py:138-147 | coercion commutes with duplicating a row |
| SchemaCore.ValidateAcceptsCopy | src/schemas/gold.py:138-147 | a schema without a unique key that accepts a table accepts it with a row duplicated |
| SchemaCore.ValidateRejectsCopy | src/schemas/gold.py:50 | a schema with a unique key rejects any table with a duplicated row |
| SchemaCore.SchemaObject.constructor | src/extract.py:34-44 | a schema object holds its schema and its `coerce` flag |
| BronzeSchemas.CustomersRule | src/schemas/bronze.py:28-38 | a typed customers table is accepted exactly when id, zip, city and state are present on every row |
| BronzeSchemas.OrdersRule | src/schemas/bronze.py:45-63 | a typed orders table is accepted exactly when every order has an id and an allowed status (or none) |
| BronzeSchemas.OrderItemsRule | src/schemas/bronze.py:71-86 | a typed items table is accepted exactly when ids are present, `order_item_id >= 1` and price and freight are non-negative |
| BronzeSchemas.OrderPaymentsRule | src/schemas/bronze.py:94-108 | a typed payments table is accepted exactly when ids are present, the sequence is at least 1, the type is allowed and installments and value are non-negative |
| BronzeSchemas.OrderReviewsRule | src/schemas/bronze.py:114-146 | a typed reviews table is accepted exactly when ids are present, the score is 1 to 5 and no answer precedes its creation |
| BronzeSchemas.ProductsRule | src/schemas/bronze.py:152-168 | a typed products table is accepted exactly when ids are present and each measurement lies in its declared range |
| BronzeSchemas.ProductTyped | src/schemas/bronze.py:152-165 | a row typed under the products schema has each of its nine declared columns at its declared type |
| BronzeSchemas.ProductRowOk | src/schemas/bronze.py:152-165 | a typed products row passes its column checks exactly when `product_id` is present and every counter and measure that is present lies in its range |
| BronzeSchemas.ProductCells | src/schemas/bronze.py:154-163 | each products column check reads as its own condition: id present, category free, counters at least 0, weight within 0 to 100000, the three dimensions within 0 to 200 |
| BronzeSchemas.KeyCell | src/schemas/bronze.py:154 | a non-nullable column without checks accepts a typed cell exactly when it is present |
| BronzeSchemas.FreeCell | src/schemas/bronze.py:155 | a nullable column without checks accepts every typed cell |
| BronzeSchemas.AtLeastCell | src/schemas/bronze.py:158-160 | a nullable column with one `ge(lo)` check accepts a typed cell exactly when it is missing or at least `lo` |
| BronzeSchemas.WithinCell | src/schemas/bronze.py:161-164 | a nullable column with `ge(lo)` then `le(hi)` accepts a typed cell exactly when it is missing or within `lo` to `hi` |
| BronzeSchemas.SellersRule | src/schemas/bronze.py:175-198 | a typed sellers table is accepted exactly when ids are present, zips are 3–8 digits and states are Brazilian |
| BronzeSchemas.GeolocationRule | src/schemas/bronze.py:205-240 | a typed geolocation table is accepted exactly when zips are 3–8 digits, coordinates are in range and states are Brazilian |
| BronzeSchemas.CategoryTranslationRule | src/schemas/bronze.py:246-267 | a typed translation table is accepted exactly when category names are never blank and English names are not blank when present |
| BronzeSchemas.TranslationRowOk | src/schemas/bronze.py:246-267 | a typed translation row passes exactly when the Portuguese name is present and not blank and the English name, when present, is not blank |
| BronzeSchemas.NotBlankCell | src/schemas/bronze.py:250-263 | a text column with the not-blank check (and optionally the length-at-least-1 check) accepts a typed cell exactly when it is missing and nullable, or present with a non-blank text |
| SilverSchemas.CustomersRule | src/schemas/silver.py:30-39 | a typed Silver customers table is accepted exactly when `customer_id` is never missing |
| SilverSchemas.OrdersRule | src/schemas/silver.py:45-59 | a typed Silver orders table is accepted exactly when `order_id` is never missing |
| SilverSchemas.OrderItemsRule | src/schemas/silver.py:65-77 | a typed Silver items table is accepted exactly when `order_id` is never missing |
| SilverSchemas.OrderPaymentsRule | src/schemas/silver.py:83-92 | a typed Silver payments table is accepted exactly when `order_id` is never missing |
| SilverSchemas.OrderReviewsRule | src/schemas/silver.py:98-111 | a typed Silver reviews table is accepted exactly when `review_id` is never missing and present scores are 1 to 5 |
| SilverSchemas.ProductsRule | src/schemas/silver.py:118-133 | a typed Silver products table is accepted exactly when `product_id` is never missing |
| SilverSchemas.SellersRule | src/schemas/silver.py:139-147 | a typed Silver sellers table is accepted exactly when `seller_id` is never missing |
| SilverSchemas.GeolocationRule | src/schemas/silver.py:153-162 | a typed Silver geolocation table is accepted exactly when the zip prefix is never missing |
| SilverSchemas.CategoryTranslationRule | src/schemas/silver.py:168-174 | a typed Silver translation table is accepted exactly when the category name is never missing |
| SilverSchemas.GeolocationZipInteger | src/schemas/silver.py:155 | after coercing validation every geolocation zip prefix is a present integer |
| SilverSchemas.NoUniqueness | src/schemas/silver.py:30-174 | no Silver schema has a unique key: duplicating a row of an accepted table is accepted too |
| GoldSchemas.DimCustomersRule | src/schemas/gold.py:43-51 | a typed table passes `dim_customers` exactly when `customer_id` is a primary key (present and unique) |
| GoldSchemas.DimProductsRule | src/schemas/gold.py:55-63 | a typed table passes `dim_products` exactly when `product_id` is a primary key |
| GoldSchemas.DimSellersRule | src/schemas/gold.py:67-76 | a typed table passes `dim_sellers` exactly when `seller_id` is a primary key |
| GoldSchemas.DimDateRule | src/schemas/gold.py:80-90 | a typed table passes `dim_date` exactly when `date_id` is a primary key and `date`, `year`, `month` and `day` are never missing |
| GoldSchemas.FactOrdersRule | src/schemas/gold.py:94-111 | a typed table passes `fact_orders` exactly when `order_id` is a primary key and `customer_id` and `purchase_date_id` are never missing |
| GoldSchemas.KeyPair | src/schemas/gold.py:132 | two rows share the key (`order_id`, `order_item_id`) exactly when they agree on both columns |
| GoldSchemas.FactOrderItemsRule | src/schemas/gold.py:116-133 | a typed table passes `fact_order_items` exactly when its six non-nullable columns are never missing and no two rows share (`order_id`, `order_item_id`) |
| GoldSchemas.FactItemRowOk | src/schemas/gold.py:116-130 | a typed row passes the `fact_order_items` column checks exactly when its six non-nullable columns are present |
| GoldSchemas.PlainRowOk | src/schemas/gold.py:116-130 | under a schema without value checks a typed row passes exactly when every non-nullable column is present |
| GoldSchemas.OrderPaymentsRule | src/schemas/gold.py:138-147 | a typed table passes the payments schema exactly when `order_id` is never missing; repeated rows are allowed |
| GoldSchemas.OrderReviewsRule | src/schemas/gold.py:151-163 | a typed table passes the reviews schema exactly when `review_id` is a primary key and every present `review_score` is 1 to 5 |
| DateKeys.KeyDate | src/model.py:157 | `to_datetime(str(id), format="%Y%m%d", errors="coerce")` yields only valid four-digit-year dates |
| DateKeys.KeyRoundTrip | src/model.py:84 | the `%Y%m%d` key of a valid date is eight digits and parses back to the date |
| DateKeys.KeyDateInverse | src/model.py:157 | a key that parses is the key of the date it parses to |
| DateKeys.DateKeyInjective | src/model.py:84 | distinct valid dates have distinct keys |
| DateKeys.DateKeyOrder | src/model.py:158 | sorting by key is sorting by date |
| DateKeys.ToDatetime | src/model.py:83 | `to_datetime(errors="coerce")` keeps a timestamp, maps missing to missing |
| DateKeys.DateIdCell | src/model.py:82-86 | the date key is present exactly when the timestamp parses, and is then the key of its date |
| ReviewOrder.RowLtIrreflexive | src/transform.py:80-84 | the (review_id, review_creation_date) order is irreflexive |
| ReviewOrder.RowLtTransitive | src/transform.py:80-84 | the (review_id, review_creation_date) order is transitive |
| ReviewOrder.RowLtSplit | src/transform.py:80-84 | the review order is a strict weak order (incomparability is transitive) |
| ReviewOrder.Insert | src/transform.py:80-84 | inserting into a sorted run is a permutation that adds the row |
| ReviewOrder.InsertSorted | src/transform.py:80-84 | inserting into a sorted run keeps it sorted |
| ReviewOrder.Sort | src/transform.py:80-84 | the stable sort is a sorted permutation of its input |
| ReviewOrder.LastWith | src/transform.py:86 | the last row with an id is a row with that id, and none exactly when no row has it |
| ReviewOrder.LastWithIndex | src/transform.py:86 | the last row with an id is the one after which no row has it |
| ReviewOrder.InsertLast | src/transform.py:80-86 | after a stable insertion, the last row of an id is the inserted row when it has that id and no existing row of the id is created after it, and is unchanged otherwise |
| ReviewOrder.WinMax | src/transform.py:70-72 | the kept review of an id exists exactly when the id does, and no version of it has a later creation date |
| ReviewOrder.WinIndex | src/transform.py:72 | among equally recent versions the last occurrence is kept |
| ReviewOrder.SortWin | src/transform.py:79-88 | sorting stably and keeping the last per id keeps the latest, last-occurring version |
| Transform.GeolocationDedup | src/transform.py:52-61 | fails exactly when a key column is absent; otherwise the same columns, an order-preserving subsequence with one row per (zip, city, state) triple, the same triples, each the first row with its triple |
| Transform.KeySetMultiset | src/transform.py:80-88 | permuting rows keeps the set of keys |
| Transform.ReviewsCanonical | src/transform.py:68-91 | without `review_id` the table is returned unchanged; otherwise one row per id, the same ids, input rows only, and with no creation date the last occurrence in input order |
| Transform.ReviewsCanonicalSorted | src/transform.py:79-88 | the canonical reviews are sorted by id and each is the most recent, last-occurring version of its id |
| Transform.AnyAtAppend | src/transform.py:137-174 | appending a condition ors it into every row |
| Transform.PairCheck | src/transform.py:139-169 | each row holds exactly when the first timestamp is present and strictly before the second |
| Transform.OrReduce | src/transform.py:171-174 | `reduce(or_, conds)` is true on a row exactly when some condition is |
| Transform.FlagsReadNoQc | src/transform.py:103-178 | the flags read no `qc_*` column, so recomputing them over a flagged table gives the same flags |
| Transform.DeliveredColumn | src/transform.py:111-118 | the flag is true exactly for delivered orders without a customer date, constant false when a column is absent |
| Transform.CarrierColumn | src/transform.py:120-128 | the flag is true exactly for shipped, invoiced or delivered orders without a carrier date, false when a column is absent |
| Transform.ApprovedColumn | src/transform.py:130-134 | the flag is true exactly when the approval date is missing, false when the column is absent |
| Transform.TemporalColumn | src/transform.py:136-176 | the flag is true exactly when some available pair of timestamps is out of order |
| Transform.FlagOrders | src/transform.py:107-178 | the four flag columns are added as specified, no other cell changes, and they are appended last when new |
| Transform.FlagOrdersOutcome | src/transform.py:107-178 | the four flag assignments in order leave the table flagged, with the flag columns appended in order when none was there |
| Transform.FlagFrame | src/transform.py:98-102 | each flag assignment keeps every column outside the flags, and the final columns are the old ones and the four flags |
| Transform.FlagValuesAt | src/transform.py:111-176 | the four flags of each row are computed from the row, as if the earlier flags had not been added |
| Transform.QcStep | src/transform.py:98-102 | setting one flag column keeps every other column and adds only that one |
| Transform.FlagMembers | src/transform.py:107-178 | after the four assignments the column set is the old one plus the four flags |
| Transform.FlagCols | src/transform.py:107-178 | when no flag column was present the flags are appended in assignment order |
| Transform.AddQualityFlags | src/transform.py:98-179 | the same tables; every table but orders unchanged; orders flagged when present |
| Transform.ValidateOne | src/transform.py:201-216 | a table is validated under its object's flag, with coercion off for products, and the flag is restored |
| Transform.ValidateSilverAll | src/transform.py:196-218 | succeeds exactly when every table validates; a failure is the error of the first table, in iteration order, that fails; on success every table is its validated form and all flags are restored |
| Transform.GeolocationKeysPresent | src/transform.py:222-223 | after Silver validation the geolocation key columns exist, so deduplication cannot fail |
| Transform.CategoryPresent | src/transform.py:233-238 | after Silver validation both sides of the category join have the join column |
| Transform.NoSchemaPassesThrough | src/transform.py:202-206 | a table without a Silver schema passes through unchanged, and none of the transformed tables is such a table |
| Transform.SilverValidatedBy | src/transform.py:202-216 | a table with a registered Silver schema is validated by it, with coercion off exactly for `products` |
| Transform.ValidateNames | src/transform.py:201-218 | the validation loop succeeds exactly when every table validates, returns each validated table under its name, and fails with the error of the first failing table in iteration order; every schema's `coerce` is restored |
| Transform.SilverTransforms | src/transform.py:220-238 | geolocation deduplicated, reviews canonical, orders flagged, products joined with the translation when both exist, everything else unchanged |
| Transform.DedupGeolocationStep | src/transform.py:221-223 | the geolocation table, when present, is replaced by its deduplication and no other table changes |
| Transform.CanonicalReviewsStep | src/transform.py:225-227 | the reviews table, when present, is replaced by its canonical form and no other table changes |
| Transform.TranslateProductsStep | src/transform.py:232-238 | with both tables present the products are left-joined with the translation on `product_category_name`; otherwise nothing changes |
| Transform.StepsOutcome | src/transform.py:220-240 | the four steps, each changing only its own table, together give the Silver outcome |
| Transform.BuildSilver | src/transform.py:186-240 | succeeds exactly when every table validates, and otherwise fails with the first failing table's error; the result is the Silver transforms applied to the validated tables; unregistered tables unchanged; flags restored |
| Model.Project | src/model.py:33 | `df[cols].drop_duplicates()` fails exactly on an absent listed column; otherwise the listed columns with pairwise distinct rows, exactly the restrictions of the input rows |
| Model.ProjectRows | src/model.py:33 | the deduplicated projection has distinct rows that are exactly the input rows restricted to the columns |
| Model.ProjectRowsShape | src/model.py:33 | each kept row has exactly the projected columns, and no row is kept twice |
| Model.ProjectRowsMembers | src/model.py:33 | the kept rows are exactly the projections of the input rows |
| Model.RestrictKeyEq | src/model.py:33 | two restricted rows with equal keys are equal |
| Model.AcceptsKey | src/schemas/gold.py:43-51 | an accepted table has a non-null column for every non-nullable spec, and a primary key where it is the unique key |
| Model.ValidateKeepsTyped | src/schemas/gold.py:49 | coercing validation leaves already typed cells unchanged |
| Model.ValidatedKeyed | src/schemas/gold.py:43-51 | a validated dimension keeps columns, rows, nulls and typed cells, and its key is a primary key |
| Model.ValidatedPresent | src/schemas/gold.py:43-163 | validation succeeds only if every non-nullable column is present in every input row |
| Model.DimensionKey | src/model.py:32-51 | a built dimension has the projected columns, one row per distinct projected row, and its id is a primary key |
| Model.DimensionClash | src/model.py:32-51 | two distinct projected rows sharing an id make the dimension fail validation |
| Model.DateIds | src/model.py:82-86 | one date key per row |
| Model.FactOrdersFrameRows | src/model.py:70-86 | the fact frame has the eight order columns plus `purchase_date_id`, one row per order, each key derived from the purchase timestamp, other cells copied |
| Model.FactOrdersUnfold | src/model.py:88 | a built fact table is the gold-validated fact frame |
| Model.FactOrdersRows | src/model.py:70-88 | `fact_orders` has the declared columns, one row per order, `order_id` a primary key, `purchase_date_id` the key of the purchase date, nulls preserved |
| Model.FactOrdersNullKey | src/model.py:82-88 | an order whose purchase timestamp does not parse makes `fact_orders` fail |
| Model.PurchaseIdSpec | src/schemas/gold.py:98 | `purchase_date_id` is declared an integer column of `fact_orders` |
| Model.OrderRefFacts | src/model.py:93 | the order subframe keeps the unique order ids and copies id, customer and purchase timestamp |
| Model.ItemsExtra | src/model.py:93 | the merge adds exactly `customer_id` and the purchase timestamp |
| Model.ItemsWithOrdersRow | src/model.py:92-96 | each item row gains its order's customer and purchase timestamp, or missing cells when no order matches, and keeps its own cells |
| Model.ItemsMergeRow | src/model.py:92-96 | the left merge with the order subframe behaves per item row as described above |
| Model.ExtendItem | src/model.py:92-96 | a merged item row takes customer and purchase timestamp from the order and every other cell from the item |
| Model.ItemDerivedMembers | src/model.py:92-110 | the columns the join and the key derivation add are `customer_id`, the purchase timestamp and the two date keys |
| Model.SpecForAt | src/schemas/gold.py:116-130 | a column resolves to the first declared column with its name |
| Model.ItemPurchaseSpec | src/schemas/gold.py:125 | `purchase_date_id` is declared an integer column of `fact_order_items` |
| Model.ItemShippingSpec | src/schemas/gold.py:126 | `shipping_limit_date_id` is declared an integer column of `fact_order_items` |
| Model.AddItemKeysRow | src/model.py:98-110 | the purchase and shipping keys are derived per row and the purchase timestamp is dropped |
| Model.FactOrderItemsRow | src/model.py:91-110 | each item frame row carries its order's customer and purchase key (missing without an order), its own shipping key and its own other cells |
| Model.FactOrderItemsUnfold | src/model.py:112 | a built item fact is the gold-validated item frame |
| Model.ItemsValidated | src/schemas/gold.py:116-133 | validation of the item frame requires customer and purchase key and keeps both keys unchanged |
| Model.FactOrderItemsRows | src/model.py:91-112 | `fact_order_items` has one row per item, no purchase timestamp, each line linked to an existing order whose purchase date gives its key, and the shipping key from its own date |
| Model.ItemsMatched | src/model.py:91-112 | every validated item row is linked to its order |
| Model.FrameKeysTyped | src/model.py:98-108 | both derived keys are integers or missing |
| Model.ItemOrderExists | src/model.py:92-96 | an item whose merged customer is present has a matching order |
| Model.ItemHasOrder | src/model.py:91-112 | an item row with customer and purchase key present is linked to an order whose purchase date gives the key |
| Model.FrameIs | src/model.py:91-110 | the item frame is the date keys added to the merged items |
| Model.ItemsWithOrdersLength | src/model.py:92-96 | with unique order ids the merge keeps one row per item |
| Model.ItemsWithOrdersKept | src/model.py:92-96 | the merge keeps every item cell it does not add |
| Model.PaymentsPassThrough | src/model.py:117-118 | typed payments pass through unchanged exactly when no order id and no integer counter is missing |
| Model.PaymentsSettled | src/schemas/gold.py:138-147 | with both integer counters present, typed payments come back unchanged exactly when no order id is missing |
| Model.PaymentsIntMissing | src/schemas/gold.py:141-143 | a missing `payment_sequential` or `payment_installments` makes the coercing payments validation fail |
| Model.PaymentsAllowRepeats | src/schemas/gold.py:138-147 | duplicated payment rows are accepted: the payments table has no key |
| Model.Present | src/model.py:126 | `[c for c in cols if c in df.columns]`: the listed columns that exist, in list order |
| Model.PresentAll | src/model.py:126 | when every listed column exists the selection is the whole list |
| Model.ReviewsFrameColumns | src/model.py:121-126 | the review frame holds the present listed columns, one row per review, the cells copied |
| Model.ValidatedNames | src/schemas/gold.py:151-163 | successful validation needs every declared column |
| Model.ReviewNames | src/model.py:121-125 | the listed review columns are the Gold review schema's, in order |
| Model.ReviewsColumns | src/model.py:120-127 | a built review table has exactly the seven listed columns, all present in the input |
| Model.InsertKey | src/model.py:158 | inserting keeps the keys ascending and adds exactly the new key |
| Model.SortedKeys | src/model.py:156-158 | `unique()` then `sort_values`: strictly ascending keys, exactly those of the input |
| Model.AscendingTail | src/model.py:158 | the head of an ascending run is its least element |
| Model.AscendingUnique | src/model.py:158 | two ascending runs with the same keys are equal |
| Model.ValidKeys | src/model.py:156-158 | the kept keys are exactly the present integers that parse as `%Y%m%d` dates |
| Model.CalendarDates | src/model.py:157 | every calendar date is valid with a four-digit year |
| Model.CalendarRowFacts | src/model.py:157-161 | a calendar row holds date, year, month, day and the key of its date |
| Model.CalendarRowConsistent | src/model.py:157-161 | the calendar row of a real date has all its columns, its `YYYYMMDD` key and its midnight timestamp agreeing with that date |
| Model.CalendarRowTyped | src/schemas/gold.py:80-90 | a calendar row has the Gold date types, with no missing integer |
| Model.CalendarAt | src/model.py:156-161 | row `i` of the calendar is the row of the `i`-th sorted valid key |
| Model.DimDateRows | src/model.py:156-161 | the calendar has the five date columns and each row's year, month and day are a valid date whose key is `date_id` and whose midnight is `date` |
| Model.DimDateKeys | src/model.py:156-158 | calendar ids are strictly ascending, and an id occurs exactly when it is a present, parseable key of the input |
| Model.DimDateValid | src/model.py:162 | the calendar always passes the Gold `dim_date` schema unchanged |
| Model.DimDateTyped | src/schemas/gold.py:80-90 | the calendar has every declared column with the declared types and no missing integer |
| Model.UniqueCells | src/model.py:55 | `unique()`: pairwise distinct, the same values |
| Model.PresentCells | src/model.py:55 | `dropna()`: exactly the present cells |
| Model.Timestamps | src/model.py:55-56 | the parsed timestamps are exactly those of the input cells that parse |
| Model.DimDateFromOrdersSpec | src/model.py:53-65 | without the purchase column it fails; otherwise it succeeds, `date_id` is a primary key, each row is the day of some order's purchase, and every order's purchase day occurs |
| Model.DayTableValid | src/model.py:58-65 | a deduplicated table of day rows is typed and passes the `dim_date` schema unchanged |
| Model.DayTableFacts | src/model.py:58-64 | each deduplicated day row comes from an order, and every order's purchase key occurs |
| Model.DayRowsFacts | src/model.py:55-61 | each day row comes from an order's purchase timestamp, and every parseable purchase key occurs |
| Model.DayRowFacts | src/model.py:58-61 | a day row has the `dim_date` types, no missing integer, and its year, month, day and key are those of its timestamp |
| Model.Lookup | src/model.py:135-146 | `silver[name]` succeeds exactly when the table exists, and otherwise fails naming it |
| Model.GoldDateIds | src/model.py:149-153 | the concatenation holds one key per order and two per line item |
| Model.GoldOf | src/model.py:132-168 | a successful build has exactly the eight Gold tables |
| Model.GoldMap | src/model.py:133-166 | the Gold dictionary has the eight names, each bound to its table |
| Model.BuildGold | src/model.py:132-168 | the imperative build, which fills the dictionary step by step, is `GoldOf` |
| Model.GoldShape | src/model.py:132-168 | the build succeeds exactly when all seven inputs exist and every builder succeeds; each Gold table is then its builder's result and `dim_date` the calendar of the three fact key columns |
| Model.GoldMissing | src/model.py:135-166 | a missing input table makes the build fail |
| Model.GoldCalendar | src/model.py:148-162 | `dim_date` ids are strictly ascending, and an id occurs exactly when it is a valid date key used by an order or a line item |
| Model.CalendarOfFacts | src/model.py:149-158 | the calendar of the fact tables lists its keys in ascending order, and has a key exactly when it is a real date used by one of the three key columns |
| Extract.FileFor | src/extract.py:21-31 | a name has a file exactly when it is registered, and it is the registered file |
| Extract.FileAt | src/extract.py:21-31 | the file found from position `k` on is the one registered with the name |
| Extract.BronzeSchemaFor | src/extract.py:34-44 | a name has a Bronze schema exactly when it is registered |
| Extract.SkipInitial | src/extract.py:55 | `skipinitialspace`: a suffix of the field without leading spaces |
| Extract.FieldCell | src/extract.py:56-57 | a field is missing exactly when, after leading spaces, it is an NA token, and otherwise is the inferred value |
| Extract.NaTokensMissing | src/extract.py:56 | each extra NA token, even after leading spaces, reads as missing |
| Extract.ExtraTokenSkipped | src/extract.py:55-56 | each of the six `na_values` tokens, once leading blanks are skipped, still reads as a missing-value token |
| Extract.SkipBlanks | src/extract.py:55 | leading spaces do not change what a field reads as |
| Extract.CleanHeader | src/extract.py:54-61 | a cleaned header holds no byte-order mark and no surrounding whitespace |
| Extract.CleanHeaderIdempotent | src/extract.py:61 | cleaning a header twice is cleaning it once |
| Extract.Headers | src/extract.py:61 | one cleaned header per raw header, in order |
| Extract.RecordRow | src/extract.py:53-58 | a record's row has one key per header |
| Extract.RecordRowFields | src/extract.py:53-58 | with distinct headers, column `i` of a record's row holds field `i`, missing when the record is short |
| Extract.ReadCsvTable | src/extract.py:47-62 | an unknown name raises `KeyError`, an absent file fails naming it, and otherwise the file is read |
| Extract.ReadCsvTableFile | src/extract.py:50-62 | a successful read is the registered file parsed |
| Extract.ReadRawHeaders | src/extract.py:53-61 | the columns are the cleaned headers, in order, each already clean |
| Extract.ReadRawRows | src/extract.py:53-58 | one row per record, each cell the record's field read with the NA rules |
| Extract.ReadRawRowAt | src/extract.py:52-58 | with distinct headers, row `k` of a read file holds field `i` of record `k` under header `i` |
| Extract.IntegralReal | src/extract.py:71 | a real becomes an `Int64` only when it is integral, and then keeps its value |
| Extract.NullableInt | src/extract.py:70-71 | the pre-cast yields nullable integers: missing and blank stay missing, integers stay, digit texts are read exactly |
| Extract.NullableIntText | src/extract.py:70-71 | the text of any integer is pre-cast back to that integer |
| Extract.NullableIntIdempotent | src/extract.py:70-71 | casting an already cast cell changes nothing |
| Extract.CastColumn | src/extract.py:69-71 | a present column that cannot be cast fails naming it; otherwise the same columns and rows, that column cast and the other cells unchanged |
| Extract.NullableIntsSpec | src/extract.py:67-72 | the pre-cast succeeds exactly when every listed present column casts; it casts exactly those and changes nothing else; an absent column is skipped |
| Extract.ToNullableInt | src/extract.py:67-72 | the loop over columns computes the pre-cast specified above |
| Extract.SchemaOf | src/extract.py:76 | a name has a schema object exactly when it is in the registry |
| Extract.RegistrySchemas | src/extract.py:34-44 | the live registry holds exactly the Bronze schemas |
| Extract.BronzeValidated | src/extract.py:75-90 | no schema passes the table through, products are validated without coercion, others with the object's flag |
| Extract.ValidateBronze | src/extract.py:75-90 | the method validates as specified and restores every schema object's `coerce` flag |
| Extract.LoadedOthers | src/extract.py:96-108 | a non-product table is read and then validated, or fails with the read error |
| Extract.PreCastTyped | src/extract.py:100-105 | after the pre-cast the three product counters are nullable integers |
| Extract.LoadedProducts | src/extract.py:100-108 | products are read, pre-cast, then validated without coercion |
| Extract.LoadOne | src/extract.py:96-111 | loading one table reads it, pre-casts products, validates with the schema's recorded flag and restores the flags |
| Extract.LoadAt | src/extract.py:96-111 | loading the `k`-th name gives its planned outcome and restores every schema's flag |
| Extract.LoadNames | src/extract.py:96-113 | loading in order succeeds exactly when each table loads; a failure is the first failing table's error; the result maps each name to its table |
| Extract.LoadAll | src/extract.py:93-113 | `load_all` succeeds exactly when every registered table loads; a failure is the first failing table's error in registry order; the result has the nine names, each its loaded table; flags restored |
| Extract.Flags | src/extract.py:83 | the snapshot of the `coerce` flags has each object's current flag |

## Left out

- pandas dtype inference works per column (a column is integer only if every field is). The model infers each field on its own through the `infer` parameter.
- CSV syntax (quoting, separators, escapes) and the `utf-8-sig` decoding are not modelled. Files are already split into a header and records. The byte-order mark is handled only by header cleaning.
- Duplicate header names (pandas renames them `x.1`) are not modelled. With duplicate headers only the key set is stated: `Extract.RecordRowFields` requires distinct headers.
- File-system access, `BRONZE_DIR`, `src/config.py`, `src/load.py` (SQLite loading), `src/pipeline.py` and `src/pipeline_nettoyage.py` are not part of this model.
- Strings.IsDigits: only the ASCII digits `0` to `9` count, where Python's `\d` matches every Unicode decimal digit. `BronzeSchemas.SellersRule` and `BronzeSchemas.GeolocationRule` therefore reject a zip prefix written in other scripts' digits (such as `١٢٣٤٥`) that the source's `fullmatch(r"\d+")` accepts. `Strings.ParseInt` likewise reads ASCII digits only.
- Float semantics: reals are exact rationals, and NaN is only a missing cell.
- `Int64` has no width limit in the model: integers are unbounded, which is harmless for the keys and counters of this data.
- Extract.NullableInt: `to_numeric` on a timestamp or other non-numeric value is refused as a cast error. pandas would coerce such a value to NA or an epoch integer.
- The `_x`/`_y` suffixes pandas gives to overlapping non-key columns in `merge` are not modelled. The joined tables of this pipeline do not overlap outside the key.
- Model.DimDateFromOrdersSpec: does not state which timestamp of a day is kept as `date`; the function keeps the first one in order of appearance.
- Validation is non-lazy: a failure carries a single `SchemaError`, not pandera's failure-case report.
- Timestamp parsing, float parsing and the text form of values are parameters (`SchemaCore.Converter`), not defined here.
