/** `YYYYMMDD` surrogate keys for calendar dates, and the conversions that
    produce them from timestamp cells. */
module DateKeys {
  import opened Wrappers
  import opened Values
  import opened SchemaCore

  predicate IsLeap(y: int) {
    (y % 4 == 0 && y % 100 != 0) || y % 400 == 0
  }

  function DaysIn(y: int, m: int): int
    requires 1 <= m <= 12
  {
    if m == 2 then (if IsLeap(y) then 29 else 28)
    else if m == 4 || m == 6 || m == 9 || m == 11 then 30
    else 31
  }

  /** A real calendar date (proleptic Gregorian). */
  predicate ValidDate(d: Date) {
    1 <= d.month <= 12 && 1 <= d.day <= DaysIn(d.year, d.month)
  }

  /** `strftime("%Y%m%d")` read back as an integer. */
  function DateKey(d: Date): int {
    d.year * 10000 + d.month * 100 + d.day
  }

  /** `to_datetime(str(k), format="%Y%m%d", errors="coerce")`: an eight-digit key naming a
      real date gives that date; anything else gives nothing. */
  function KeyDate(k: int): (r: Option<Date>)
    ensures r.Some? ==> ValidDate(r.value) && 1000 <= r.value.year <= 9999
  {
    if 10000000 <= k <= 99999999 then
      var d := Date(k / 10000, (k / 100) % 100, k % 100);
      if ValidDate(d) then Some(d) else None
    else None
  }

  /** Decoding an encoded date gives the date back, and its key has eight digits. */
  lemma KeyRoundTrip(d: Date)
    requires ValidDate(d) && 1000 <= d.year <= 9999
    ensures 10000000 <= DateKey(d) <= 99999999
    ensures KeyDate(DateKey(d)) == Some(d)
  {
    var k := DateKey(d);
    var rest := d.month * 100 + d.day;
    assert 0 <= rest < 10000;
    assert k / 10000 == d.year && k % 10000 == rest by {
      assert k == d.year * 10000 + rest;
    }
    assert k / 100 == d.year * 100 + d.month && k % 100 == d.day by {
      assert k == (d.year * 100 + d.month) * 100 + d.day;
    }
    assert (k / 100) % 100 == d.month by {
      assert k / 100 == d.year * 100 + d.month;
    }
  }

  /** Every key that decodes is the encoding of the date it decodes to. */
  lemma KeyDateInverse(k: int)
    requires KeyDate(k).Some?
    ensures DateKey(KeyDate(k).value) == k
  {
    var d := KeyDate(k).value;
    assert k == (k / 10000) * 10000 + ((k / 100) % 100) * 100 + k % 100 by {
      assert k == (k / 100) * 100 + k % 100;
      assert k / 100 == (k / 10000) * 100 + (k / 100) % 100;
    }
  }

  /** Distinct real dates have distinct keys. */
  lemma DateKeyInjective(a: Date, b: Date)
    requires ValidDate(a) && ValidDate(b) && 1000 <= a.year <= 9999 && 1000 <= b.year <= 9999
    ensures DateKey(a) == DateKey(b) <==> a == b
  {
    KeyRoundTrip(a);
    KeyRoundTrip(b);
  }

  /** Key order is chronological order. */
  lemma DateKeyOrder(a: Date, b: Date)
    requires ValidDate(a) && ValidDate(b)
    ensures DateLt(a, b) <==> DateKey(a) < DateKey(b)
  {
    var ra := a.month * 100 + a.day;
    var rb := b.month * 100 + b.day;
    assert 101 <= ra <= 1231 && 101 <= rb <= 1231;
    if a.year != b.year {
      assert DateLt(a, b) <==> a.year < b.year;
    } else if a.month != b.month {
      assert DateLt(a, b) <==> a.month < b.month;
    }
  }

  /** `to_datetime(c, errors="coerce")` on one cell: timestamps stay, text goes through the
      parser, missing and unparseable cells become missing. */
  function ToDatetime(conv: Converter, c: Cell): (r: Option<Timestamp>)
    ensures c.None? ==> r.None?
    ensures c.Some? && c.value.Time? ==> r == Some(c.value.t)
  {
    match c
    case Some(Time(t)) => Some(t)
    case Some(Text(s)) => conv.parseTime(s)
    case _ => None
  }

  /** `to_datetime(...).dt.strftime("%Y%m%d").astype("Int64")`: the date key of the cell,
      or a missing cell when the timestamp is missing or unparseable. */
  function DateIdCell(conv: Converter, c: Cell): (r: Cell)
    ensures r.Some? <==> ToDatetime(conv, c).Some?
    ensures r.Some? ==> r.value == Int(DateKey(ToDatetime(conv, c).value.date))
  {
    match ToDatetime(conv, c)
    case Some(t) => Some(Int(DateKey(t.date)))
    case None => None
  }

  /** The midnight timestamp of a date, as `to_datetime` returns for a `%Y%m%d` string. */
  function Midnight(d: Date): Timestamp {
    Timestamp(d, 0)
  }
}
