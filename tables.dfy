/** Tables as pandas holds them: an ordered list of column names and a
    sequence of rows, each row a map from column name to a possibly-null cell.
    Also the generic row operations the tiers share: keyed first/last
    de-duplication, subsequences, column assignment, projection and the
    left merge. */
module Tables {
  import opened Wrappers
  import opened Values

  type Row = map<string, Cell>

  datatype Table = Table(cols: seq<string>, rows: seq<Row>)

  /** The errors the pipeline can raise; any of them aborts the run. */
  datatype Error =
    | UnknownTable(name: string)     // configuration error (KeyError on the registry)
    | MissingFile(file: string)      // source I/O error
    | MissingColumn(column: string)  // KeyError on a column selection
    | CastError(column: string)      // an integer cast that cannot be done safely
    | SchemaError(reason: string)    // a tier schema rejected the table

  /** The cell of column `c`; a column the row lacks reads as missing. */
  function Get(r: Row, c: string): Cell {
    if c in r then r[c] else None
  }

  /** Column names are distinct and every row has exactly those columns. */
  ghost predicate WellFormed(t: Table) {
    && (forall i, j :: 0 <= i < j < |t.cols| ==> t.cols[i] != t.cols[j])
    && (forall i :: 0 <= i < |t.rows| ==> t.rows[i].Keys == set c | c in t.cols)
  }

  /** The cells of `cols`, in order: the key `drop_duplicates(subset=cols)` compares. */
  function Key(r: Row, cols: seq<string>): seq<Cell> {
    seq(|cols|, i requires 0 <= i < |cols| => Get(r, cols[i]))
  }

  /** The series `t[c]`. */
  function Column(t: Table, c: string): (col: seq<Cell>)
    ensures |col| == |t.rows|
  {
    seq(|t.rows|, i requires 0 <= i < |t.rows| => Get(t.rows[i], c))
  }

  // ---------------------------------------------------------------------------
  // Subsequences

  /** `a` is `b` with some elements left out, order kept. */
  predicate Subseq<T(==)>(a: seq<T>, b: seq<T>)
    decreases |b|
  {
    a == [] || (b != [] && ((a[0] == b[0] && Subseq(a[1..], b[1..])) || Subseq(a, b[1..])))
  }

  lemma {:induction false} SubseqMembers<T>(a: seq<T>, b: seq<T>)
    requires Subseq(a, b)
    ensures forall x :: x in a ==> x in b
    ensures |a| <= |b|
    decreases |b|
  {
    if a != [] {
      if a[0] == b[0] && Subseq(a[1..], b[1..]) {
        SubseqMembers(a[1..], b[1..]);
        assert a == [a[0]] + a[1..];
      } else {
        SubseqMembers(a, b[1..]);
      }
    }
  }

  lemma {:induction false} SubseqRefl<T>(a: seq<T>)
    ensures Subseq(a, a)
  {
    if a != [] { SubseqRefl(a[1..]); }
  }

  /** A relation that holds between every earlier and later element of `b` still holds
      in any subsequence of `b`. */
  lemma {:induction false} SubseqPairwise<T>(a: seq<T>, b: seq<T>, P: (T, T) -> bool)
    requires Subseq(a, b)
    requires forall i, j :: 0 <= i < j < |b| ==> P(b[i], b[j])
    ensures forall i, j :: 0 <= i < j < |a| ==> P(a[i], a[j])
    decreases |b|
  {
    if a != [] {
      var b' := b[1..];
      forall i, j | 0 <= i < j < |b'| ensures P(b'[i], b'[j]) {
        assert b'[i] == b[i + 1] && b'[j] == b[j + 1];
      }
      if a[0] == b[0] && Subseq(a[1..], b') {
        SubseqPairwise(a[1..], b', P);
        SubseqMembers(a[1..], b');
        forall i, j | 0 <= i < j < |a| ensures P(a[i], a[j]) {
          assert a[j] == a[1..][j - 1];
          if i == 0 {
            assert a[j] in b';
            var q :| 0 <= q < |b'| && b'[q] == a[j];
            assert b[q + 1] == a[j];
          } else {
            assert a[i] == a[1..][i - 1];
          }
        }
      } else {
        SubseqPairwise(a, b', P);
      }
    }
  }

  // ---------------------------------------------------------------------------
  // Keys of a row sequence

  function KeySet<K>(s: seq<Row>, key: Row -> K): set<K> {
    set i | 0 <= i < |s| :: key(s[i])
  }

  predicate KeysDistinct<K(==)>(s: seq<Row>, key: Row -> K) {
    forall i, j :: 0 <= i < j < |s| ==> key(s[i]) != key(s[j])
  }

  lemma KeySetCons<K>(s: seq<Row>, key: Row -> K)
    requires s != []
    ensures KeySet(s, key) == {key(s[0])} + KeySet(s[1..], key)
  {
    forall k | k in KeySet(s, key) ensures k in {key(s[0])} + KeySet(s[1..], key) {
      var i :| 0 <= i < |s| && key(s[i]) == k;
      if i > 0 { assert key(s[1..][i - 1]) == k; }
    }
    forall k | k in KeySet(s[1..], key) ensures k in KeySet(s, key) {
      var i :| 0 <= i < |s[1..]| && key(s[1..][i]) == k;
      assert key(s[i + 1]) == k;
    }
  }

  /** Index of the first row whose key is `k`. */
  function FirstIndex<K(==)>(s: seq<Row>, key: Row -> K, k: K): (j: nat)
    requires k in KeySet(s, key)
    ensures j < |s| && key(s[j]) == k
    ensures forall i :: 0 <= i < j ==> key(s[i]) != k
  {
    KeySetCons(s, key);
    if key(s[0]) == k then 0 else 1 + FirstIndex(s[1..], key, k)
  }

  /** Index of the last row whose key is `k`. */
  function LastIndex<K(==)>(s: seq<Row>, key: Row -> K, k: K): (j: nat)
    requires k in KeySet(s, key)
    ensures j < |s| && key(s[j]) == k
    ensures forall i :: j < i < |s| ==> key(s[i]) != k
  {
    KeySetCons(s, key);
    if k in KeySet(s[1..], key) then
      var j := 1 + LastIndex(s[1..], key, k);
      assert forall i :: j < i < |s| ==> s[i] == s[1..][i - 1];
      j
    else
      forall i | 0 < i < |s| ensures key(s[i]) != k {
        assert s[i] == s[1..][i - 1];
      }
      0
  }

  // ---------------------------------------------------------------------------
  // drop_duplicates(keep="first") and drop_duplicates(keep="last")

  function DedupFrom<K(==)>(s: seq<Row>, key: Row -> K, seen: set<K>): (r: seq<Row>)
    ensures Subseq(r, s)
    ensures KeysDistinct(r, key)
    ensures KeySet(r, key) == KeySet(s, key) - seen
  {
    if s == [] then []
    else
      KeySetCons(s, key);
      var k := key(s[0]);
      if k in seen then DedupFrom(s[1..], key, seen)
      else
        var rest := DedupFrom(s[1..], key, seen + {k});
        var r := [s[0]] + rest;
        KeySetCons(r, key);
        assert r[1..] == rest;
        assert forall i :: 0 < i < |r| ==> key(r[i]) in KeySet(rest, key) by {
          forall i | 0 < i < |r| ensures key(r[i]) in KeySet(rest, key) {
            assert r[i] == rest[i - 1];
          }
        }
        r
  }

  lemma {:induction false} DedupFromFirst<K>(s: seq<Row>, key: Row -> K, seen: set<K>, i: nat)
    requires i < |DedupFrom(s, key, seen)|
    ensures key(DedupFrom(s, key, seen)[i]) in KeySet(s, key)
    ensures DedupFrom(s, key, seen)[i] == s[FirstIndex(s, key, key(DedupFrom(s, key, seen)[i]))]
  {
    var r := DedupFrom(s, key, seen);
    assert key(r[i]) in KeySet(r, key);
    KeySetCons(s, key);
    var k := key(s[0]);
    if k in seen {
      DedupFromFirst(s[1..], key, seen, i);
    } else if i > 0 {
      var rest := DedupFrom(s[1..], key, seen + {k});
      assert r[i] == rest[i - 1];
      DedupFromFirst(s[1..], key, seen + {k}, i - 1);
      assert key(rest[i - 1]) in KeySet(rest, key);
    }
  }

  /** `drop_duplicates(subset, keep="first")`: the first row of each key, in input order. */
  function DedupFirst<K(==)>(s: seq<Row>, key: Row -> K): (r: seq<Row>)
    ensures Subseq(r, s) && |r| <= |s|
    ensures KeysDistinct(r, key)
    ensures KeySet(r, key) == KeySet(s, key)
    ensures forall i :: 0 <= i < |r| ==> r[i] == s[FirstIndex(s, key, key(r[i]))]
  {
    var r := DedupFrom(s, key, {});
    SubseqMembers(r, s);
    forall i | 0 <= i < |r| ensures key(r[i]) in KeySet(s, key) && r[i] == s[FirstIndex(s, key, key(r[i]))] {
      DedupFromFirst(s, key, {}, i);
    }
    r
  }

  /** `drop_duplicates(subset, keep="last")`: the last row of each key, in input order. */
  function DedupLast<K(==)>(s: seq<Row>, key: Row -> K): (r: seq<Row>)
    ensures Subseq(r, s) && |r| <= |s|
    ensures KeysDistinct(r, key)
    ensures KeySet(r, key) == KeySet(s, key)
    ensures forall i :: 0 <= i < |r| ==> r[i] == s[LastIndex(s, key, key(r[i]))]
  {
    if s == [] then []
    else
      KeySetCons(s, key);
      var rest := DedupLast(s[1..], key);
      SubseqMembers(rest, s[1..]);
      assert forall i :: 0 <= i < |rest| ==> key(rest[i]) in KeySet(s[1..], key);
      if key(s[0]) in KeySet(s[1..], key) then
        rest
      else
        var r := [s[0]] + rest;
        KeySetCons(r, key);
        assert r[1..] == rest;
        assert forall i :: 0 < i < |r| ==> r[i] == rest[i - 1];
        r
  }

  // ---------------------------------------------------------------------------
  // Column-level operations

  /** The first name of `want` that `have` lacks. */
  function FirstMissing(want: seq<string>, have: seq<string>): (c: string)
    requires exists c :: c in want && c !in have
    ensures c in want && c !in have
  {
    if want[0] !in have then want[0] else FirstMissing(want[1..], have)
  }

  /** The row cut down to the columns `cols`. */
  function Restrict(r: Row, cols: seq<string>): Row {
    map c | c in cols :: Get(r, c)
  }

  /** `df[cols]`: the listed columns, in the listed order; a missing column raises KeyError. */
  function Select(t: Table, cols: seq<string>): (r: Result<Table, Error>)
    ensures r.Success? <==> forall c :: c in cols ==> c in t.cols
    ensures r.Failure? ==> r.error.MissingColumn? && r.error.column in cols && r.error.column !in t.cols
    ensures r.Success? ==> r.value.cols == cols && |r.value.rows| == |t.rows|
    ensures r.Success? ==> forall i :: 0 <= i < |t.rows| ==>
              r.value.rows[i].Keys == (set c | c in cols) && forall c :: c in cols ==> Get(r.value.rows[i], c) == Get(t.rows[i], c)
  {
    if forall c :: c in cols ==> c in t.cols then
      Success(Table(cols, seq(|t.rows|, i requires 0 <= i < |t.rows| => Restrict(t.rows[i], cols))))
    else
      Failure(MissingColumn(FirstMissing(cols, t.cols)))
  }

  /** `df[c] = values`: replaces column `c` in place, or appends it when new. */
  function WithColumn(t: Table, c: string, values: seq<Cell>): (r: Table)
    requires |values| == |t.rows|
    ensures r.cols == if c in t.cols then t.cols else t.cols + [c]
    ensures |r.rows| == |t.rows|
    ensures forall i :: 0 <= i < |t.rows| ==> r.rows[i].Keys == t.rows[i].Keys + {c}
    ensures forall i :: 0 <= i < |t.rows| ==> Get(r.rows[i], c) == values[i]
    ensures forall i, d :: 0 <= i < |t.rows| && d != c ==> Get(r.rows[i], d) == Get(t.rows[i], d)
  {
    Table(if c in t.cols then t.cols else t.cols + [c],
          seq(|t.rows|, i requires 0 <= i < |t.rows| => t.rows[i][c := values[i]]))
  }

  /** Adding a column to a well-formed table keeps it well-formed. */
  lemma WithColumnWellFormed(t: Table, c: string, values: seq<Cell>)
    requires WellFormed(t) && |values| == |t.rows|
    ensures WellFormed(WithColumn(t, c, values))
  {
    var r := WithColumn(t, c, values);
    forall i | 0 <= i < |r.rows| ensures r.rows[i].Keys == set d | d in r.cols {
      assert t.rows[i].Keys == set d | d in t.cols;
    }
  }

  function Remove(cols: seq<string>, c: string): (r: seq<string>)
    ensures forall d :: d in r <==> d in cols && d != c
  {
    if cols == [] then [] else (if cols[0] == c then [] else [cols[0]]) + Remove(cols[1..], c)
  }

  /** `df.drop(columns=[c])`; dropping an absent column raises KeyError. */
  function Drop(t: Table, c: string): (r: Result<Table, Error>)
    ensures r.Success? <==> c in t.cols
    ensures r.Success? ==> r.value.cols == Remove(t.cols, c) && |r.value.rows| == |t.rows|
    ensures r.Success? ==> forall i :: 0 <= i < |t.rows| ==>
              c !in r.value.rows[i] && forall d :: d != c ==> Get(r.value.rows[i], d) == Get(t.rows[i], d)
  {
    if c in t.cols then
      Success(Table(Remove(t.cols, c), seq(|t.rows|, i requires 0 <= i < |t.rows| => t.rows[i] - {c})))
    else
      Failure(MissingColumn(c))
  }

  // ---------------------------------------------------------------------------
  // merge(how="left", on=...)

  /** The rows of `rs` whose `on` cell equals `k`, in order (pandas matches missing keys to each other). */
  function Matches(rs: seq<Row>, on: string, k: Cell): (m: seq<Row>)
    ensures forall i :: 0 <= i < |m| ==> Get(m[i], on) == k
    ensures (forall j :: 0 <= j < |rs| ==> Get(rs[j], on) != k) ==> m == []
  {
    if rs == [] then []
    else (if Get(rs[0], on) == k then [rs[0]] else []) + Matches(rs[1..], on, k)
  }

  /** The left row with the `extra` cells of the matched right row (all missing when `m` is empty). */
  function Extend(l: Row, m: Row, extra: seq<string>): Row {
    l + map c | c in extra :: Get(m, c)
  }

  function JoinOne(l: Row, rs: seq<Row>, on: string, extra: seq<string>): seq<Row> {
    var ms := Matches(rs, on, Get(l, on));
    if ms == [] then [Extend(l, map[], extra)]
    else seq(|ms|, i requires 0 <= i < |ms| => Extend(l, ms[i], extra))
  }

  function JoinRows(ls: seq<Row>, rs: seq<Row>, on: string, extra: seq<string>): seq<Row> {
    if ls == [] then [] else JoinOne(ls[0], rs, on, extra) + JoinRows(ls[1..], rs, on, extra)
  }

  function NewCols(extra: seq<string>, have: seq<string>): (r: seq<string>)
    ensures forall c :: c in r <==> c in extra && c !in have
  {
    if extra == [] then []
    else (if extra[0] in have then [] else [extra[0]]) + NewCols(extra[1..], have)
  }

  /** `left.merge(right, on=on, how="left")`: every left row, in order, once per
      matching right row, or once with missing right-hand cells when none matches. */
  function LeftJoin(left: Table, right: Table, on: string): (r: Result<Table, Error>)
    ensures r.Success? <==> on in left.cols && on in right.cols
  {
    if on !in left.cols || on !in right.cols then Failure(MissingColumn(on))
    else
      var extra := Remove(right.cols, on);
      Success(Table(left.cols + NewCols(extra, left.cols), JoinRows(left.rows, right.rows, on, extra)))
  }

  predicate OnDistinct(rs: seq<Row>, on: string) {
    forall i, j :: 0 <= i < j < |rs| ==> Get(rs[i], on) != Get(rs[j], on)
  }

  lemma {:induction false} MatchesUnique(rs: seq<Row>, on: string, j: nat)
    requires OnDistinct(rs, on) && j < |rs|
    ensures Matches(rs, on, Get(rs[j], on)) == [rs[j]]
  {
    var k := Get(rs[j], on);
    if j == 0 {
      assert forall i :: 0 <= i < |rs[1..]| ==> Get(rs[1..][i], on) != k by {
        forall i | 0 <= i < |rs[1..]| ensures Get(rs[1..][i], on) != k {
          assert rs[1..][i] == rs[i + 1];
        }
      }
    } else {
      assert rs[1..][j - 1] == rs[j];
      MatchesUnique(rs[1..], on, j - 1);
    }
  }

  lemma JoinRowsUnique(ls: seq<Row>, rs: seq<Row>, on: string, extra: seq<string>)
    requires OnDistinct(rs, on)
    ensures |JoinRows(ls, rs, on, extra)| == |ls|
    ensures forall i :: 0 <= i < |ls| ==>
              JoinRows(ls, rs, on, extra)[i] == Extend(ls[i], MatchOf(rs, on, Get(ls[i], on)), extra)
  {
    JoinRowsSingles(ls, rs, on, extra);
  }

  /** One joined row per left row, in order. */
  lemma {:induction false} JoinRowsSingles(ls: seq<Row>, rs: seq<Row>, on: string, extra: seq<string>)
    requires OnDistinct(rs, on)
    ensures |JoinRows(ls, rs, on, extra)| == |ls|
    ensures forall i :: 0 <= i < |ls| ==>
              JoinRows(ls, rs, on, extra)[i] == Extend(ls[i], MatchOf(rs, on, Get(ls[i], on)), extra)
  {
    if ls != [] {
      var head := JoinOne(ls[0], rs, on, extra);
      var tail := JoinRows(ls[1..], rs, on, extra);
      JoinOneSingle(ls[0], rs, on, extra);
      JoinRowsSingles(ls[1..], rs, on, extra);
      assert |head| == 1;
      forall i | 0 < i < |ls|
        ensures JoinRows(ls, rs, on, extra)[i] == Extend(ls[i], MatchOf(rs, on, Get(ls[i], on)), extra)
      {
        assert ls[i] == ls[1..][i - 1];
        assert JoinRows(ls, rs, on, extra)[i] == tail[i - 1];
      }
    }
  }

  /** Against distinct keys a left row joins exactly one row: itself extended by its
      match, or by no cells. */
  lemma JoinOneSingle(l: Row, rs: seq<Row>, on: string, extra: seq<string>)
    requires OnDistinct(rs, on)
    ensures JoinOne(l, rs, on, extra) == [Extend(l, MatchOf(rs, on, Get(l, on)), extra)]
  {
    if Matches(rs, on, Get(l, on)) != [] {
      var j :| 0 <= j < |rs| && Get(rs[j], on) == Get(l, on);
      MatchesUnique(rs, on, j);
    }
  }

  lemma JoinRowsKeepsLeft(ls: seq<Row>, rs: seq<Row>, on: string, extra: seq<string>)
    ensures |JoinRows(ls, rs, on, extra)| >= |ls|
    ensures (forall i, j :: 0 <= i < |ls| && 0 <= j < |rs| ==> Get(rs[j], on) != Get(ls[i], on))
              ==> JoinRows(ls, rs, on, extra) == seq(|ls|, i requires 0 <= i < |ls| => Extend(ls[i], map[], extra))
  {
    JoinRowsLength(ls, rs, on, extra);
    if forall i, j :: 0 <= i < |ls| && 0 <= j < |rs| ==> Get(rs[j], on) != Get(ls[i], on) {
      JoinRowsNoMatch(ls, rs, on, extra);
    }
  }

  lemma {:induction false} JoinRowsLength(ls: seq<Row>, rs: seq<Row>, on: string, extra: seq<string>)
    ensures |JoinRows(ls, rs, on, extra)| >= |ls|
  {
    if ls != [] {
      JoinRowsLength(ls[1..], rs, on, extra);
    }
  }

  /** With no key in common, every left row comes out once, with missing right-hand cells. */
  lemma {:induction false} JoinRowsNoMatch(ls: seq<Row>, rs: seq<Row>, on: string, extra: seq<string>)
    requires forall i, j :: 0 <= i < |ls| && 0 <= j < |rs| ==> Get(rs[j], on) != Get(ls[i], on)
    ensures JoinRows(ls, rs, on, extra) == seq(|ls|, i requires 0 <= i < |ls| => Extend(ls[i], map[], extra))
  {
    if ls != [] {
      assert forall i, j :: 0 <= i < |ls[1..]| && 0 <= j < |rs| ==> Get(rs[j], on) != Get(ls[1..][i], on) by {
        forall i, j | 0 <= i < |ls[1..]| && 0 <= j < |rs| ensures Get(rs[j], on) != Get(ls[1..][i], on) {
          assert ls[1..][i] == ls[i + 1];
        }
      }
      JoinRowsNoMatch(ls[1..], rs, on, extra);
      assert Matches(rs, on, Get(ls[0], on)) == [];
      var head := JoinOne(ls[0], rs, on, extra);
      var tail := JoinRows(ls[1..], rs, on, extra);
      var want := seq(|ls|, i requires 0 <= i < |ls| => Extend(ls[i], map[], extra));
      assert head == [Extend(ls[0], map[], extra)];
      assert JoinRows(ls, rs, on, extra) == head + tail;
      assert |head + tail| == |want|;
      forall i | 0 <= i < |ls| ensures (head + tail)[i] == want[i] {
        if i > 0 {
          assert (head + tail)[i] == tail[i - 1];
          assert ls[i] == ls[1..][i - 1];
        }
      }
    }
  }

  /** The right row joined to a left row whose key is `k`, or no cells when none matches. */
  function MatchOf(rs: seq<Row>, on: string, k: Cell): Row {
    var ms := Matches(rs, on, k);
    if ms == [] then map[] else ms[0]
  }

  lemma MatchOfUnique(rs: seq<Row>, on: string, k: Cell)
    requires OnDistinct(rs, on)
    ensures forall j :: 0 <= j < |rs| && Get(rs[j], on) == k ==> MatchOf(rs, on, k) == rs[j]
    ensures (forall j :: 0 <= j < |rs| ==> Get(rs[j], on) != k) ==> MatchOf(rs, on, k) == map[]
  {
    forall j | 0 <= j < |rs| && Get(rs[j], on) == k ensures MatchOf(rs, on, k) == rs[j] {
      MatchesUnique(rs, on, j);
    }
  }

  lemma ExtendGet(l: Row, m: Row, extra: seq<string>, c: string)
    ensures Get(Extend(l, m, extra), c) == if c in extra then Get(m, c) else Get(l, c)
  {
  }

  /** When the right table's keys are distinct, the left merge keeps one row per left
      row, in order, each extended with the cells of its match (none when nothing matches). */
  lemma LeftJoinUnique(left: Table, right: Table, on: string)
    requires on in left.cols && on in right.cols
    requires OnDistinct(right.rows, on)
    ensures |LeftJoin(left, right, on).value.rows| == |left.rows|
    ensures forall i :: 0 <= i < |left.rows| ==>
              LeftJoin(left, right, on).value.rows[i]
              == Extend(left.rows[i], MatchOf(right.rows, on, Get(left.rows[i], on)), Remove(right.cols, on))
  {
    var extra := Remove(right.cols, on);
    JoinRowsUnique(left.rows, right.rows, on, extra);
  }

  /** The joined cells, column by column: a matched product gets its right-hand cell,
      an unmatched one a missing cell; every other column keeps the left cell. */
  lemma LeftJoinCell(left: Table, right: Table, on: string, i: nat, c: string)
    requires on in left.cols && on in right.cols
    requires OnDistinct(right.rows, on) && i < |left.rows|
    ensures |LeftJoin(left, right, on).value.rows| == |left.rows|
    ensures c !in Remove(right.cols, on) ==> Get(LeftJoin(left, right, on).value.rows[i], c) == Get(left.rows[i], c)
    ensures forall j :: 0 <= j < |right.rows| && c in Remove(right.cols, on) && Get(right.rows[j], on) == Get(left.rows[i], on)
              ==> Get(LeftJoin(left, right, on).value.rows[i], c) == Get(right.rows[j], c)
    ensures (c in Remove(right.cols, on) && forall j :: 0 <= j < |right.rows| ==> Get(right.rows[j], on) != Get(left.rows[i], on))
              ==> Get(LeftJoin(left, right, on).value.rows[i], c) == None
  {
    LeftJoinUnique(left, right, on);
    MatchOfUnique(right.rows, on, Get(left.rows[i], on));
    ExtendGet(left.rows[i], MatchOf(right.rows, on, Get(left.rows[i], on)), Remove(right.cols, on), c);
  }
}
