/** The order `reviews_canonical` sorts by (review id, then creation date, both
    ascending with missing values last, stable), and the row it keeps per review:
    reading the rows in input order, a later row replaces the current one when its
    creation date is not earlier. */
module ReviewOrder {
  import opened Wrappers
  import opened Values
  import opened Tables

  function Id(r: Row): Cell { Get(r, "review_id") }

  function Created(r: Row): Cell { Get(r, "review_creation_date") }

  /** `a` sorts strictly before `b` under `sort_values(by=[review_id, review_creation_date])`. */
  predicate RowLt(a: Row, b: Row) {
    CellLt(Id(a), Id(b)) || (Id(a) == Id(b) && CellLt(Created(a), Created(b)))
  }

  lemma RowLtIrreflexive(a: Row)
    ensures !RowLt(a, a)
  {
    CellLtIrreflexive(Id(a));
    CellLtIrreflexive(Created(a));
  }

  lemma RowLtTransitive(a: Row, b: Row, c: Row)
    requires RowLt(a, b) && RowLt(b, c)
    ensures RowLt(a, c)
  {
    if CellLt(Id(a), Id(b)) && CellLt(Id(b), Id(c)) {
      CellLtTransitive(Id(a), Id(b), Id(c));
    } else if Id(a) == Id(b) && Id(b) == Id(c) {
      CellLtTransitive(Created(a), Created(b), Created(c));
    }
  }

  /** If `a` sorts before `c`, any `b` sorts after `a` or before `c`. */
  lemma RowLtSplit(a: Row, b: Row, c: Row)
    requires RowLt(a, c)
    ensures RowLt(a, b) || RowLt(b, c)
  {
    if Id(b) != Id(a) { CellLtTotal(Id(a), Id(b)); }
    if Id(b) != Id(c) { CellLtTotal(Id(b), Id(c)); }
    if CellLt(Id(b), Id(a)) && CellLt(Id(a), Id(c)) { CellLtTransitive(Id(b), Id(a), Id(c)); }
    if CellLt(Id(a), Id(c)) && CellLt(Id(c), Id(b)) { CellLtTransitive(Id(a), Id(c), Id(b)); }
    if Id(a) == Id(b) && Id(b) == Id(c) {
      CellLtIrreflexive(Id(a));
      assert CellLt(Created(a), Created(c));
      if Created(b) != Created(a) { CellLtTotal(Created(a), Created(b)); }
      if CellLt(Created(b), Created(a)) { CellLtTransitive(Created(b), Created(a), Created(c)); }
    }
  }

  /** No row sorts strictly before an earlier one. */
  predicate Sorted(s: seq<Row>) {
    forall i, j :: 0 <= i < j < |s| ==> !RowLt(s[j], s[i])
  }

  /** Put `x` after every row of `t` that does not sort strictly after it. */
  function Insert(t: seq<Row>, x: Row): (r: seq<Row>)
    ensures multiset(r) == multiset(t) + multiset{x}
  {
    if t == [] then [x]
    else if RowLt(x, t[0]) then [x] + t
    else
      assert t == [t[0]] + t[1..];
      [t[0]] + Insert(t[1..], x)
  }

  lemma {:induction false} InsertSorted(t: seq<Row>, x: Row)
    requires Sorted(t)
    ensures Sorted(Insert(t, x))
  {
    if t != [] {
      if RowLt(x, t[0]) {
        forall j | 0 <= j < |t| ensures !RowLt(t[j], x) {
          if RowLt(t[j], x) {
            RowLtTransitive(t[j], x, t[0]);
            RowLtIrreflexive(t[0]);
          }
        }
        var r := [x] + t;
        assert forall j :: 0 < j < |r| ==> r[j] == t[j - 1];
      } else {
        var t' := t[1..];
        SortedTail(t);
        InsertSorted(t', x);
        var u := Insert(t', x);
        forall j | 0 <= j < |u| ensures !RowLt(u[j], t[0]) {
          assert u[j] in multiset(t') + multiset{x};
          if u[j] != x {
            assert u[j] in t';
            var q :| 0 <= q < |t'| && t'[q] == u[j];
            assert t[q + 1] == u[j];
          }
        }
        var r := [t[0]] + u;
        assert forall j :: 0 < j < |r| ==> r[j] == u[j - 1];
      }
    }
  }

  /** A stable sort by `RowLt`: each row is inserted after the rows that came before it. */
  function Sort(s: seq<Row>): (r: seq<Row>)
    ensures multiset(r) == multiset(s)
    ensures Sorted(r)
  {
    if s == [] then []
    else
      var p := s[..|s| - 1];
      assert s == p + [s[|s| - 1]];
      InsertSorted(Sort(p), s[|s| - 1]);
      Insert(Sort(p), s[|s| - 1])
  }

  // ---------------------------------------------------------------------------
  // The row kept per review id

  /** The last row of `t` with id `k`. */
  function LastWith(t: seq<Row>, k: Cell): (r: Option<Row>)
    ensures r.Some? ==> r.value in t && Id(r.value) == k
    ensures r.None? <==> forall j :: 0 <= j < |t| ==> Id(t[j]) != k
  {
    if t == [] then None
    else
      assert forall j :: 0 < j < |t| ==> t[j] == t[1..][j - 1];
      match LastWith(t[1..], k)
      case Some(r) => Some(r)
      case None => if Id(t[0]) == k then Some(t[0]) else None
  }

  lemma {:induction false} LastWithIndex(t: seq<Row>, k: Cell, j: nat)
    requires j < |t| && Id(t[j]) == k
    requires forall i :: j < i < |t| ==> Id(t[i]) != k
    ensures LastWith(t, k) == Some(t[j])
  {
    if j > 0 {
      assert t[1..][j - 1] == t[j];
      assert forall i :: j - 1 < i < |t[1..]| ==> t[1..][i] == t[i + 1];
      LastWithIndex(t[1..], k, j - 1);
    } else {
      assert forall i :: 0 <= i < |t[1..]| ==> t[1..][i] == t[i + 1];
    }
  }

  /** Some row of `t` with the id of `x` was created strictly after `x`. */
  predicate Beaten(t: seq<Row>, x: Row) {
    exists y :: y in t && Id(y) == Id(x) && CellLt(Created(x), Created(y))
  }

  lemma SortedTail(t: seq<Row>)
    requires Sorted(t) && t != []
    ensures Sorted(t[1..])
  {
    var t' := t[1..];
    forall i, j | 0 <= i < j < |t'| ensures !RowLt(t'[j], t'[i]) {
      assert t'[i] == t[i + 1] && t'[j] == t[j + 1];
    }
  }

  /** A row that sorts before the first row of a sorted sequence sorts before all of it. */
  lemma BeforeAll(t: seq<Row>, x: Row)
    requires Sorted(t) && t != [] && RowLt(x, t[0])
    ensures forall y :: y in t ==> RowLt(x, y)
  {
    forall y | y in t ensures RowLt(x, y) {
      var q :| 0 <= q < |t| && t[q] == y;
      if q > 0 {
        assert !RowLt(t[q], t[0]);
        RowLtSplit(x, t[q], t[0]);
      }
    }
  }

  lemma InsertLastFront(t: seq<Row>, x: Row, k: Cell)
    requires Sorted(t) && t != [] && RowLt(x, t[0])
    ensures LastWith(Insert(t, x), k) == if Id(x) == k && !Beaten(t, x) then Some(x) else LastWith(t, k)
  {
    var r := [x] + t;
    assert r[1..] == t;
    BeforeAll(t, x);
    if Id(x) == k && LastWith(t, k).Some? {
      var y := LastWith(t, k).value;
      assert RowLt(x, y);
      CellLtIrreflexive(Id(x));
      assert Beaten(t, x);
    }
  }

  lemma BeatenSkip(t: seq<Row>, x: Row)
    requires t != [] && !RowLt(x, t[0])
    ensures Beaten(t, x) <==> Beaten(t[1..], x)
  {
    assert t == [t[0]] + t[1..];
    if Beaten(t, x) {
      var y :| y in t && Id(y) == Id(x) && CellLt(Created(x), Created(y));
      assert y != t[0];
      assert y in t[1..];
    }
  }

  /** Inserting `x` into a sorted sequence changes the last row of id `k` to `x` exactly
      when `x` has that id and no row of it is created later. */
  lemma {:induction false} InsertLast(t: seq<Row>, x: Row, k: Cell)
    requires Sorted(t)
    ensures LastWith(Insert(t, x), k) == if Id(x) == k && !Beaten(t, x) then Some(x) else LastWith(t, k)
  {
    if t == [] {
    } else if RowLt(x, t[0]) {
      InsertLastFront(t, x, k);
    } else {
      var t' := t[1..];
      SortedTail(t);
      InsertLast(t', x, k);
      BeatenSkip(t, x);
      var r := [t[0]] + Insert(t', x);
      assert r[1..] == Insert(t', x);
    }
  }

  /** The reference choice: reading `s` in order, a row of id `k` replaces the current
      choice unless its creation date is strictly earlier. */
  function Win(s: seq<Row>, k: Cell): Option<Row>
  {
    if s == [] then None
    else
      var w := Win(s[..|s| - 1], k);
      var x := s[|s| - 1];
      if Id(x) == k && (w.None? || !CellLt(Created(x), Created(w.value))) then Some(x) else w
  }

  /** The chosen row is a row of id `k`, exists exactly when some row has id `k`, and no
      row of that id is created after it. */
  lemma {:induction false} WinMax(s: seq<Row>, k: Cell)
    ensures Win(s, k).Some? <==> exists j :: 0 <= j < |s| && Id(s[j]) == k
    ensures Win(s, k).Some? ==> Win(s, k).value in s && Id(Win(s, k).value) == k
    ensures Win(s, k).Some? ==> forall y :: y in s && Id(y) == k ==> !CellLt(Created(Win(s, k).value), Created(y))
  {
    if s != [] {
      var p := s[..|s| - 1];
      var x := s[|s| - 1];
      assert s == p + [x];
      WinMax(p, k);
      var w := Win(p, k);
      if w.Some? {
        var j :| 0 <= j < |p| && Id(p[j]) == k;
        assert s[j] == p[j];
      }
      if Win(s, k).Some? {
        var v := Win(s, k).value;
        forall y | y in s && Id(y) == k ensures !CellLt(Created(v), Created(y)) {
          if v == x && w.Some? && y in p && CellLt(Created(x), Created(y)) {
            // x does not come before w, and w comes no earlier than y
            if Created(x) != Created(w.value) { CellLtTotal(Created(x), Created(w.value)); }
            if Created(w.value) != Created(y) { CellLtTotal(Created(w.value), Created(y)); }
            if CellLt(Created(w.value), Created(x)) { CellLtTransitive(Created(w.value), Created(x), Created(y)); }
          }
          if w.Some? && v == w.value && v != x && y == x {
            if Created(x) != Created(v) { CellLtTotal(Created(x), Created(v)); }
            CellLtAsymmetric(Created(x), Created(v));
          }
          if v == x && y == x { CellLtIrreflexive(Created(x)); }
        }
      }
    }
  }

  /** The chosen row is the last row, in input order, among those of id `k` with the
      latest creation date: any index with that description names it. */
  lemma {:induction false} WinIndex(s: seq<Row>, k: Cell, j: nat)
    requires j < |s| && Id(s[j]) == k
    requires forall q :: 0 <= q < |s| && Id(s[q]) == k ==> !CellLt(Created(s[j]), Created(s[q]))
    requires forall q :: j < q < |s| && Id(s[q]) == k ==> CellLt(Created(s[q]), Created(s[j]))
    ensures Win(s, k) == Some(s[j])
  {
    var p := s[..|s| - 1];
    var x := s[|s| - 1];
    WinMax(p, k);
    if j == |s| - 1 {
      if Win(p, k).Some? {
        var w := Win(p, k).value;
        var q :| 0 <= q < |p| && p[q] == w;
        assert s[q] == w;
      }
    } else {
      assert p[j] == s[j];
      forall q | 0 <= q < |p| && Id(p[q]) == k ensures !CellLt(Created(p[j]), Created(p[q])) {
        assert p[q] == s[q];
      }
      forall q | j < q < |p| && Id(p[q]) == k ensures CellLt(Created(p[q]), Created(p[j])) {
        assert p[q] == s[q];
      }
      WinIndex(p, k, j);
    }
  }

  /** The last row of id `k` after the stable sort is the reference choice. */
  lemma {:induction false} SortWin(s: seq<Row>, k: Cell)
    ensures LastWith(Sort(s), k) == Win(s, k)
  {
    if s != [] {
      var p := s[..|s| - 1];
      var x := s[|s| - 1];
      var t := Sort(p);
      SortWin(p, k);
      InsertLast(t, x, k);
      if Id(x) == k {
        var w := Win(p, k);
        WinMax(p, k);
        assert Beaten(t, x) <==> (w.Some? && CellLt(Created(x), Created(w.value))) by {
          if Beaten(t, x) {
            var y :| y in t && Id(y) == Id(x) && CellLt(Created(x), Created(y));
            assert y in multiset(p);
            assert y in p;
            var q :| 0 <= q < |p| && p[q] == y;
            assert w.Some?;
            assert !CellLt(Created(w.value), Created(y));
            if Created(w.value) != Created(y) {
              CellLtTotal(Created(w.value), Created(y));
              CellLtTransitive(Created(x), Created(y), Created(w.value));
            }
          }
          if w.Some? && CellLt(Created(x), Created(w.value)) {
            assert w.value in multiset(t);
          }
        }
      }
    }
  }
}
