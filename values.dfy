/** Scalars held in table cells, and the orders pandas uses on them. */
module Values {
  import opened Wrappers
  import opened Strings

  /** A calendar date as (year, month, day); validity is checked in DateKeys. */
  datatype Date = Date(year: int, month: int, day: int)

  /** A point in time: its calendar date and an abstract, ordered time of day. */
  datatype Timestamp = Timestamp(date: Date, seconds: int)

  /** A non-null scalar: text, integer, real measurement, boolean or timestamp. */
  datatype Value = Text(s: string) | Int(i: int) | Real(r: real) | Bool(b: bool) | Time(t: Timestamp)

  /** A possibly-missing scalar (pandas NaN / NaT / NA is `None`). */
  type Cell = Option<Value>

  predicate DateLt(a: Date, b: Date) {
    a.year < b.year
    || (a.year == b.year && (a.month < b.month || (a.month == b.month && a.day < b.day)))
  }

  /** Chronological order on timestamps. */
  predicate TimeLt(a: Timestamp, b: Timestamp) {
    DateLt(a.date, b.date) || (a.date == b.date && a.seconds < b.seconds)
  }

  predicate TimeLe(a: Timestamp, b: Timestamp) {
    a == b || TimeLt(a, b)
  }

  lemma TimeLtTotal(a: Timestamp, b: Timestamp)
    ensures a == b || TimeLt(a, b) || TimeLt(b, a)
    ensures !(TimeLt(a, b) && TimeLt(b, a))
  {
  }

  /** Position of each kind of value when kinds are mixed. */
  function Rank(v: Value): nat {
    match v
    case Bool(_) => 0
    case Int(_) => 1
    case Real(_) => 2
    case Text(_) => 3
    case Time(_) => 4
  }

  predicate ValueLt(a: Value, b: Value) {
    if Rank(a) != Rank(b) then Rank(a) < Rank(b)
    else match (a, b)
      case (Bool(x), Bool(y)) => !x && y
      case (Int(x), Int(y)) => x < y
      case (Real(x), Real(y)) => x < y
      case (Text(x), Text(y)) => StrLt(x, y)
      case (Time(x), Time(y)) => TimeLt(x, y)
      case _ => false
  }

  /** The order `sort_values` uses on one key column: values ascending, missing values last. */
  predicate CellLt(a: Cell, b: Cell) {
    a.Some? && (b.None? || ValueLt(a.value, b.value))
  }

  predicate CellLe(a: Cell, b: Cell) {
    a == b || CellLt(a, b)
  }

  lemma ValueLtIrreflexive(a: Value)
    ensures !ValueLt(a, a)
  {
    if a.Text? { StrLtIrreflexive(a.s); }
  }

  lemma ValueLtTransitive(a: Value, b: Value, c: Value)
    requires ValueLt(a, b) && ValueLt(b, c)
    ensures ValueLt(a, c)
  {
    if a.Text? && b.Text? && c.Text? { StrLtTransitive(a.s, b.s, c.s); }
  }

  lemma ValueLtTotal(a: Value, b: Value)
    requires a != b
    ensures ValueLt(a, b) || ValueLt(b, a)
  {
    if a.Text? && b.Text? { StrLtTotal(a.s, b.s); }
  }

  /** CellLt is a strict total order on cells. */
  lemma CellLtIrreflexive(a: Cell)
    ensures !CellLt(a, a)
  {
    if a.Some? { ValueLtIrreflexive(a.value); }
  }

  lemma CellLtTransitive(a: Cell, b: Cell, c: Cell)
    requires CellLt(a, b) && CellLt(b, c)
    ensures CellLt(a, c)
  {
    if c.Some? { ValueLtTransitive(a.value, b.value, c.value); }
  }

  lemma CellLtTotal(a: Cell, b: Cell)
    requires a != b
    ensures CellLt(a, b) || CellLt(b, a)
  {
    if a.Some? && b.Some? { ValueLtTotal(a.value, b.value); }
  }

  lemma CellLtAsymmetric(a: Cell, b: Cell)
    ensures !(CellLt(a, b) && CellLt(b, a))
  {
    if CellLt(a, b) && CellLt(b, a) {
      CellLtTransitive(a, b, a);
      CellLtIrreflexive(a);
    }
  }

  /** The numeric reading of integers and reals (used by range checks). */
  predicate IsNumber(v: Value) { v.Int? || v.Real? }

  function Num(v: Value): real
    requires IsNumber(v)
  {
    if v.Int? then v.i as real else v.r
  }

  predicate IsNull(c: Cell) { c.None? }
}
