/**
 * A pandas DataFrame as the handlers use it: column labels and rows of cells,
 * with `Null` standing for a missing (NaN) cell. This module gives the
 * DataFrame operations the handlers call (`dropna`, concatenation,
 * `drop_duplicates`, column selection, building a frame from a list of
 * records and `to_dict("records")`) as explicit sequence functions.
 */
module Frames {
  import opened Basics
  import opened PyValues
  import opened PyDicts

  type Row = seq<Value>

  datatype Frame = Frame(columns: seq<string>, rows: seq<Row>)

  predicate Distinct<T(==)>(s: seq<T>) {
    forall i, j :: 0 <= i < j < |s| ==> s[i] != s[j]
  }

  /** Every row has one cell per column. */
  predicate Rectangular(f: Frame) {
    forall i :: 0 <= i < |f.rows| ==> |f.rows[i]| == |f.columns|
  }

  /** A frame built from records: rectangular, with distinct column labels. */
  predicate Valid(f: Frame) {
    Rectangular(f) && Distinct(f.columns)
  }

  function IndexOf(s: seq<string>, x: string): (i: nat)
    requires x in s
    ensures i < |s| && s[i] == x && x !in s[..i]
  {
    if s[0] == x then 0 else 1 + IndexOf(s[1..], x)
  }

  lemma {:induction false} IndexOfDistinct(s: seq<string>, j: nat)
    requires Distinct(s) && j < |s|
    ensures IndexOf(s, s[j]) == j
  {
    if j > 0 {
      assert s[0] != s[j];
      assert s[1..][j - 1] == s[j];
      IndexOfDistinct(s[1..], j - 1);
    }
  }

  // ---------------------------------------------------------------------
  // dropna(how="all")

  predicate AllNull(r: Row) {
    forall j :: 0 <= j < |r| ==> r[j] == Null
  }

  /** The rows that hold at least one non-null cell, in their order. */
  function NonEmptyRows(rows: seq<Row>): (r: seq<Row>)
    ensures |r| <= |rows|
    ensures forall i :: 0 <= i < |r| ==> !AllNull(r[i])
    ensures forall x :: x in r ==> x in rows
    ensures forall x :: x in rows && !AllNull(x) ==> x in r
    ensures (forall i :: 0 <= i < |rows| ==> !AllNull(rows[i])) ==> r == rows
  {
    if rows == [] then []
    else if AllNull(rows[0]) then NonEmptyRows(rows[1..])
    else [rows[0]] + NonEmptyRows(rows[1..])
  }

  /** Dropping empty rows of two stacked blocks drops them block by block, so order is kept. */
  lemma {:induction false} NonEmptyRowsAppend(a: seq<Row>, b: seq<Row>)
    ensures NonEmptyRows(a + b) == NonEmptyRows(a) + NonEmptyRows(b)
  {
    if a != [] {
      assert (a + b)[0] == a[0] && (a + b)[1..] == a[1..] + b;
      NonEmptyRowsAppend(a[1..], b);
    } else {
      assert a + b == b;
    }
  }

  /** `df.dropna(how="all", axis=0)`. */
  function DropEmptyRows(f: Frame): (r: Frame)
    ensures r.columns == f.columns
    ensures Rectangular(f) ==> Rectangular(r)
  {
    Frame(f.columns, NonEmptyRows(f.rows))
  }

  predicate ColumnHasValue(f: Frame, j: nat) {
    exists i :: 0 <= i < |f.rows| && j < |f.rows[i]| && f.rows[i][j] != Null
  }

  /** Positions, from `j` on and in increasing order, of the columns holding a non-null cell. */
  function NonEmptyColumnsFrom(f: Frame, j: nat): (ks: seq<nat>)
    requires j <= |f.columns|
    ensures forall t :: 0 <= t < |ks| ==> j <= ks[t] < |f.columns|
    ensures forall t, u :: 0 <= t < u < |ks| ==> ks[t] < ks[u]
    decreases |f.columns| - j
  {
    if j == |f.columns| then []
    else if ColumnHasValue(f, j) then [j] + NonEmptyColumnsFrom(f, j + 1)
    else NonEmptyColumnsFrom(f, j + 1)
  }

  /** The positions kept are exactly those of the columns holding a value. */
  lemma {:induction false} NonEmptyColumnsFromSpec(f: Frame, j: nat)
    requires j <= |f.columns|
    ensures forall t :: 0 <= t < |NonEmptyColumnsFrom(f, j)| ==> ColumnHasValue(f, NonEmptyColumnsFrom(f, j)[t])
    ensures forall c :: j <= c < |f.columns| && ColumnHasValue(f, c) ==> c in NonEmptyColumnsFrom(f, j)
    decreases |f.columns| - j
  {
    if j < |f.columns| {
      NonEmptyColumnsFromSpec(f, j + 1);
    }
  }

  /** The cells of `x` at positions `ks`, in that order. */
  function ProjectRow(x: Row, ks: seq<nat>): (y: Row)
    requires forall t :: 0 <= t < |ks| ==> ks[t] < |x|
    ensures |y| == |ks|
    ensures forall t :: 0 <= t < |ks| ==> y[t] == x[ks[t]]
  {
    seq(|ks|, t requires 0 <= t < |ks| => x[ks[t]])
  }

  /** Every row has a cell at each of the positions `ks`. */
  predicate Within(rows: seq<Row>, ks: seq<nat>) {
    forall x, t :: x in rows && 0 <= t < |ks| ==> ks[t] < |x|
  }

  function ProjectRows(rows: seq<Row>, ks: seq<nat>): (r: seq<Row>)
    requires Within(rows, ks)
    ensures |r| == |rows|
    ensures forall i :: 0 <= i < |rows| ==> r[i] == ProjectRow(rows[i], ks)
  {
    seq(|rows|, i requires 0 <= i < |rows| => ProjectRow(rows[i], ks))
  }

  /** The frame restricted to the columns at positions `ks`, in that order. */
  function Project(f: Frame, ks: seq<nat>): (r: Frame)
    requires Rectangular(f)
    requires forall t :: 0 <= t < |ks| ==> ks[t] < |f.columns|
    ensures Rectangular(r) && |r.rows| == |f.rows| && |r.columns| == |ks|
    ensures forall t :: 0 <= t < |ks| ==> r.columns[t] == f.columns[ks[t]]
    ensures forall i, t :: 0 <= i < |f.rows| && 0 <= t < |ks| ==> r.rows[i][t] == f.rows[i][ks[t]]
  {
    Frame(seq(|ks|, t requires 0 <= t < |ks| => f.columns[ks[t]]), ProjectRows(f.rows, ks))
  }

  /** `df.dropna(how="all", axis=1)`. */
  function DropEmptyColumns(f: Frame): (r: Frame)
    requires Rectangular(f)
    ensures Rectangular(r) && |r.rows| == |f.rows|
  {
    Project(f, NonEmptyColumnsFrom(f, 0))
  }

  /** Dropping columns keeps labels distinct and introduces none. */
  lemma DropEmptyColumnsValid(f: Frame)
    requires Valid(f)
    ensures Valid(DropEmptyColumns(f))
    ensures forall c :: c in DropEmptyColumns(f).columns ==> c in f.columns
  {
    var ks := NonEmptyColumnsFrom(f, 0);
    var r := DropEmptyColumns(f);
    forall t, u | 0 <= t < u < |r.columns|
      ensures r.columns[t] != r.columns[u]
    {
      assert ks[t] < ks[u];
    }
    forall c | c in r.columns
      ensures c in f.columns
    {
      var t :| 0 <= t < |r.columns| && r.columns[t] == c;
      assert c == f.columns[ks[t]];
    }
  }

  lemma {:induction false} AllColumnsKept(f: Frame, j: nat)
    requires j <= |f.columns|
    requires forall c :: j <= c < |f.columns| ==> ColumnHasValue(f, c)
    ensures |NonEmptyColumnsFrom(f, j)| == |f.columns| - j
    ensures forall t :: 0 <= t < |f.columns| - j ==> NonEmptyColumnsFrom(f, j)[t] == j + t
    decreases |f.columns| - j
  {
    if j < |f.columns| {
      AllColumnsKept(f, j + 1);
      assert NonEmptyColumnsFrom(f, j) == [j] + NonEmptyColumnsFrom(f, j + 1);
    }
  }

  /** Column `t` of `r` has the label and the cells of column `c` of `f`. */
  predicate SameColumn(r: Frame, t: nat, f: Frame, c: nat)
    requires Rectangular(r) && Rectangular(f) && |r.rows| == |f.rows|
  {
    t < |r.columns| && c < |f.columns| && r.columns[t] == f.columns[c] &&
    forall i :: 0 <= i < |f.rows| ==> r.rows[i][t] == f.rows[i][c]
  }

  /** Every column `DropEmptyColumns` keeps holds a non-null cell. */
  lemma DropEmptyColumnsNonEmpty(f: Frame)
    requires Rectangular(f)
    ensures forall t :: 0 <= t < |DropEmptyColumns(f).columns| ==> ColumnHasValue(DropEmptyColumns(f), t)
  {
    var ks := NonEmptyColumnsFrom(f, 0);
    var r := DropEmptyColumns(f);
    NonEmptyColumnsFromSpec(f, 0);
    forall t | 0 <= t < |r.columns|
      ensures ColumnHasValue(r, t)
    {
      assert ColumnHasValue(f, ks[t]);
      var i :| 0 <= i < |f.rows| && ks[t] < |f.rows[i]| && f.rows[i][ks[t]] != Null;
      assert r.rows[i][t] == f.rows[i][ks[t]];
    }
  }

  /** Every column holding a non-null cell survives `DropEmptyColumns` with its label and cells. */
  lemma DropEmptyColumnsKeeps(f: Frame, c: nat)
    requires Rectangular(f) && c < |f.columns| && ColumnHasValue(f, c)
    ensures exists t :: SameColumn(DropEmptyColumns(f), t, f, c)
  {
    var ks := NonEmptyColumnsFrom(f, 0);
    NonEmptyColumnsFromSpec(f, 0);
    assert c in ks;
    var t :| 0 <= t < |ks| && ks[t] == c;
    assert SameColumn(DropEmptyColumns(f), t, f, c);
  }

  /** A frame whose every column holds a value is left as it is. */
  lemma {:induction false} DropEmptyColumnsNoop(f: Frame)
    requires Rectangular(f)
    requires forall c :: 0 <= c < |f.columns| ==> ColumnHasValue(f, c)
    ensures DropEmptyColumns(f) == f
  {
    AllColumnsKept(f, 0);
    ProjectIdentity(f, NonEmptyColumnsFrom(f, 0));
  }

  /** Projecting onto every position, in order, gives the frame back. */
  lemma ProjectIdentity(f: Frame, ks: seq<nat>)
    requires Rectangular(f)
    requires |ks| == |f.columns| && forall t :: 0 <= t < |ks| ==> ks[t] == t
    ensures Project(f, ks) == f
  {
    var r := Project(f, ks);
    assert r.columns == f.columns;
    forall i | 0 <= i < |f.rows|
      ensures r.rows[i] == f.rows[i]
    {
      assert ProjectRow(f.rows[i], ks) == f.rows[i];
    }
  }

  /** The positions `ks` are cells of `x` and include every non-null cell of `x`. */
  predicate Fits(x: Row, ks: seq<nat>) {
    && (forall t :: 0 <= t < |ks| ==> ks[t] < |x|)
    && (forall c :: 0 <= c < |x| && x[c] != Null ==> c in ks)
  }

  /** A projection that keeps every non-null cell of a row keeps the row's emptiness. */
  lemma ProjectRowAllNull(x: Row, ks: seq<nat>)
    requires Fits(x, ks)
    ensures AllNull(ProjectRow(x, ks)) <==> AllNull(x)
  {
    if !AllNull(x) {
      var c :| 0 <= c < |x| && x[c] != Null;
      var t :| 0 <= t < |ks| && ks[t] == c;
      assert ProjectRow(x, ks)[t] != Null;
    }
  }

  lemma ProjectRowsCons(x: Row, rest: seq<Row>, ks: seq<nat>)
    requires Within([x], ks) && Within(rest, ks)
    ensures Within([x] + rest, ks)
    ensures ProjectRows([x] + rest, ks) == [ProjectRow(x, ks)] + ProjectRows(rest, ks)
  {
    var l := [x] + rest;
    assert forall y :: y in l ==> y == x || y in rest;
    assert x in [x];
    assert ProjectRows(l, ks)[0] == ProjectRow(x, ks);
    forall i | 1 <= i < |l|
      ensures ProjectRows(l, ks)[i] == ProjectRows(rest, ks)[i - 1]
    {
      assert l[i] == rest[i - 1];
    }
  }

  lemma {:induction false} ProjectRowsNonEmpty(rows: seq<Row>, ks: seq<nat>)
    requires forall x :: x in rows ==> Fits(x, ks)
    ensures Within(rows, ks) && Within(NonEmptyRows(rows), ks)
    ensures NonEmptyRows(ProjectRows(rows, ks)) == ProjectRows(NonEmptyRows(rows), ks)
  {
    if rows != [] {
      var p := ProjectRows(rows, ks);
      assert p[1..] == ProjectRows(rows[1..], ks);
      ProjectRowsNonEmpty(rows[1..], ks);
      ProjectRowAllNull(rows[0], ks);
      var rest := NonEmptyRows(rows[1..]);
      if !AllNull(rows[0]) {
        ProjectRowsCons(rows[0], rest, ks);
      }
    }
  }

  /** Removing all-null rows does not change which columns hold a value. */
  lemma RowsKeepColumnValues(f: Frame, c: nat)
    requires Rectangular(f)
    ensures ColumnHasValue(DropEmptyRows(f), c) <==> ColumnHasValue(f, c)
  {
    var g := DropEmptyRows(f);
    if ColumnHasValue(f, c) {
      var i :| 0 <= i < |f.rows| && c < |f.rows[i]| && f.rows[i][c] != Null;
      assert !AllNull(f.rows[i]);
      assert f.rows[i] in g.rows;
    }
    if ColumnHasValue(g, c) {
      var i :| 0 <= i < |g.rows| && c < |g.rows[i]| && g.rows[i][c] != Null;
      assert g.rows[i] in f.rows;
    }
  }

  lemma {:induction false} SameColumnsFrom(f: Frame, g: Frame, j: nat)
    requires j <= |f.columns| && f.columns == g.columns
    requires forall c: nat :: ColumnHasValue(g, c) <==> ColumnHasValue(f, c)
    ensures NonEmptyColumnsFrom(g, j) == NonEmptyColumnsFrom(f, j)
    decreases |f.columns| - j
  {
    if j < |f.columns| {
      SameColumnsFrom(f, g, j + 1);
    }
  }

  /** Dropping empty columns and dropping empty rows can run in either order. */
  lemma DropEmptyCommutes(f: Frame)
    requires Rectangular(f)
    ensures Rectangular(DropEmptyRows(f))
    ensures DropEmptyRows(DropEmptyColumns(f)) == DropEmptyColumns(DropEmptyRows(f))
  {
    var ks := NonEmptyColumnsFrom(f, 0);
    var g := DropEmptyRows(f);
    forall c: nat
      ensures ColumnHasValue(g, c) <==> ColumnHasValue(f, c)
    {
      RowsKeepColumnValues(f, c);
    }
    SameColumnsFrom(f, g, 0);
    NonEmptyColumnsFromSpec(f, 0);
    forall x | x in f.rows
      ensures Fits(x, ks)
    {
      forall c | 0 <= c < |x| && x[c] != Null
        ensures c in ks
      {
        assert ColumnHasValue(f, c);
      }
    }
    ProjectRowsNonEmpty(f.rows, ks);
  }

  // ---------------------------------------------------------------------
  // Column lookup, selection and concatenation

  /** `df[cols]`: the named columns in the given order, or a KeyError for the first unknown one. */
  function Select(f: Frame, cols: seq<string>): (r: Result<Frame>)
    requires Rectangular(f)
    ensures r.Ok? <==> forall c :: c in cols ==> c in f.columns
    ensures r.Ok? ==> r.value.columns == cols && Rectangular(r.value) && |r.value.rows| == |f.rows|
    ensures r.Ok? ==> forall i, t :: 0 <= i < |f.rows| && 0 <= t < |cols| ==>
              r.value.rows[i][t] == f.rows[i][IndexOf(f.columns, cols[t])]
  {
    var missing := MissingColumns(cols, f.columns);
    if missing != [] then Err(KeyError(missing[0]))
    else Ok(Project(f, seq(|cols|, t requires 0 <= t < |cols| => IndexOf(f.columns, cols[t]))))
  }

  /** Selecting a frame's own distinct columns gives the frame back. */
  lemma SelectOwnColumns(f: Frame)
    requires Valid(f)
    ensures Select(f, f.columns) == Ok(f)
  {
    assert Select(f, f.columns).Ok?;
    var r := Select(f, f.columns).value;
    forall i, t | 0 <= i < |f.rows| && 0 <= t < |f.columns|
      ensures r.rows[i][t] == f.rows[i][t]
    {
      IndexOfDistinct(f.columns, t);
    }
    forall i | 0 <= i < |f.rows|
      ensures r.rows[i] == f.rows[i]
    {
    }
    assert r.rows == f.rows;
  }

  function MissingColumns(cols: seq<string>, have: seq<string>): (m: seq<string>)
    ensures m == [] <==> forall c :: c in cols ==> c in have
  {
    if cols == [] then []
    else (if cols[0] in have then [] else [cols[0]]) + MissingColumns(cols[1..], have)
  }

  /** `a` followed by the labels of `b` not yet present: the column index of a concatenation. */
  function Union(a: seq<string>, b: seq<string>): (u: seq<string>)
    ensures forall c :: c in u <==> c in a || c in b
    ensures Distinct(a) ==> Distinct(u)
    ensures |a| <= |u| && u[..|a|] == a
    decreases |b|
  {
    if b == [] then a else Union(if b[0] in a then a else a + [b[0]], b[1..])
  }

  lemma {:induction false} UnionOfSubset(a: seq<string>, b: seq<string>)
    requires forall c :: c in b ==> c in a
    ensures Union(a, b) == a
    decreases |b|
  {
    if b != [] {
      UnionOfSubset(a, b[1..]);
    }
  }

  /** The cell of row `i` under the label `c`, or null when the frame has no such column. */
  function CellAt(f: Frame, i: nat, c: string): Value
    requires Rectangular(f) && i < |f.rows|
  {
    if c in f.columns then f.rows[i][IndexOf(f.columns, c)] else Null
  }

  /** The rows of `f` laid out under the columns `cols`, missing cells filled with null. */
  function Conform(f: Frame, cols: seq<string>): (rows: seq<Row>)
    requires Rectangular(f)
    ensures |rows| == |f.rows|
    ensures forall i :: 0 <= i < |rows| ==> |rows[i]| == |cols|
  {
    seq(|f.rows|, i requires 0 <= i < |f.rows| =>
      seq(|cols|, j requires 0 <= j < |cols| => CellAt(f, i, cols[j])))
  }

  lemma ConformOwnColumns(f: Frame)
    requires Valid(f)
    ensures Conform(f, f.columns) == f.rows
  {
    forall i | 0 <= i < |f.rows|
      ensures Conform(f, f.columns)[i] == f.rows[i]
    {
      forall j | 0 <= j < |f.columns|
        ensures Conform(f, f.columns)[i][j] == f.rows[i][j]
      {
        IndexOfDistinct(f.columns, j);
      }
    }
  }

  /** `pd.concat([a, b], sort=False)`, equally `a.append(b)`: rows of `a` then rows of `b`. */
  function Concat(a: Frame, b: Frame): (r: Frame)
    requires Rectangular(a) && Rectangular(b)
    ensures Rectangular(r)
    ensures r.columns == Union(a.columns, b.columns)
    ensures |r.rows| == |a.rows| + |b.rows|
    ensures forall i, j :: 0 <= i < |a.rows| && 0 <= j < |r.columns| ==> r.rows[i][j] == CellAt(a, i, r.columns[j])
    ensures forall i, j :: 0 <= i < |b.rows| && 0 <= j < |r.columns| ==>
              r.rows[|a.rows| + i][j] == CellAt(b, i, r.columns[j])
  {
    var u := Union(a.columns, b.columns);
    Frame(u, Conform(a, u) + Conform(b, u))
  }

  // ---------------------------------------------------------------------
  // drop_duplicates(subset=key, keep="last")

  /** Every row has a cell at position `k`. */
  predicate Wide(rows: seq<Row>, k: nat) {
    forall i :: 0 <= i < |rows| ==> k < |rows[i]|
  }

  /** The cells at position `k`, one per row. */
  function KeyColumn(rows: seq<Row>, k: nat): (ks: seq<Value>)
    requires Wide(rows, k)
    ensures |ks| == |rows|
    ensures forall i :: 0 <= i < |rows| ==> ks[i] == rows[i][k]
  {
    seq(|rows|, i requires 0 <= i < |rows| => rows[i][k])
  }

  lemma KeyColumnAppend(a: seq<Row>, b: seq<Row>, k: nat)
    requires Wide(a, k) && Wide(b, k)
    ensures Wide(a + b, k) && KeyColumn(a + b, k) == KeyColumn(a, k) + KeyColumn(b, k)
  {
  }

  /** The rows whose key does not occur again further down, in their order. */
  function DedupLast(rows: seq<Row>, k: nat): (r: seq<Row>)
    requires Wide(rows, k)
    ensures Wide(r, k) && |r| <= |rows|
    ensures Distinct(KeyColumn(r, k))
    ensures forall x :: x in KeyColumn(r, k) <==> x in KeyColumn(rows, k)
    ensures forall x :: x in r ==> x in rows
  {
    if rows == [] then []
    else
      var rest := DedupLast(rows[1..], k);
      assert KeyColumn(rows, k) == [rows[0][k]] + KeyColumn(rows[1..], k);
      if rows[0][k] in KeyColumn(rows[1..], k) then rest
      else
        var r := [rows[0]] + rest;
        assert KeyColumn(r, k) == [rows[0][k]] + KeyColumn(rest, k);
        assert forall j :: 0 <= j < |rest| ==> KeyColumn(rest, k)[j] in KeyColumn(rest, k);
        r
  }

  /** The last row whose key is `key`. */
  function LastWithKey(rows: seq<Row>, k: nat, key: Value): (r: Row)
    requires Wide(rows, k) && key in KeyColumn(rows, k)
    ensures r in rows && k < |r| && r[k] == key
    ensures r == rows[LastIndex(KeyColumn(rows, k), key)]
  {
    assert KeyColumn(rows, k) == [rows[0][k]] + KeyColumn(rows[1..], k);
    if key in KeyColumn(rows[1..], k) then LastWithKey(rows[1..], k, key) else rows[0]
  }

  /** Deduplication keeps, for every key, its last row. */
  lemma {:induction false} DedupKeepsLast(rows: seq<Row>, k: nat)
    requires Wide(rows, k)
    ensures forall r :: r in DedupLast(rows, k) ==> r[k] in KeyColumn(rows, k) && r == LastWithKey(rows, k, r[k])
  {
    if rows != [] {
      var x, tail := rows[0], rows[1..];
      assert rows == [x] + tail;
      DedupKeepsLast(tail, k);
      forall r | r in DedupLast(rows, k)
        ensures r[k] in KeyColumn(rows, k) && r == LastWithKey(rows, k, r[k])
      {
        LastWithKeyCons(x, tail, k, r[k]);
      }
    }
  }

  /** Which row is last for a key, one row in front of the rest. */
  lemma LastWithKeyCons(x: Row, rest: seq<Row>, k: nat, key: Value)
    requires Wide(rest, k) && k < |x|
    ensures Wide([x] + rest, k)
    ensures key in KeyColumn([x] + rest, k) <==> key == x[k] || key in KeyColumn(rest, k)
    ensures key in KeyColumn([x] + rest, k) ==>
      LastWithKey([x] + rest, k, key) == if key in KeyColumn(rest, k) then LastWithKey(rest, k, key) else x
  {
    assert ([x] + rest)[1..] == rest;
    assert KeyColumn([x] + rest, k) == [x[k]] + KeyColumn(rest, k);
  }

  /** In two stacked blocks the last row of a key comes from the lower block when it has the key. */
  lemma {:induction false} LastWithKeyAppend(a: seq<Row>, b: seq<Row>, k: nat, key: Value)
    requires Wide(a, k) && Wide(b, k)
    requires key in KeyColumn(a, k) || key in KeyColumn(b, k)
    ensures Wide(a + b, k) && key in KeyColumn(a + b, k)
    ensures LastWithKey(a + b, k, key) ==
      if key in KeyColumn(b, k) then LastWithKey(b, k, key) else LastWithKey(a, k, key)
  {
    KeyColumnAppend(a, b, k);
    if a == [] {
      assert a + b == b;
    } else {
      assert (a + b)[0] == a[0] && (a + b)[1..] == a[1..] + b;
      assert KeyColumn(a, k) == [a[0][k]] + KeyColumn(a[1..], k);
      KeyColumnAppend(a[1..], b, k);
      if key in KeyColumn(a[1..], k) || key in KeyColumn(b, k) {
        LastWithKeyAppend(a[1..], b, k, key);
      }
    }
  }

  // ---------------------------------------------------------------------
  // Records

  type Record = Items

  /** The keys of the records in the order first seen: the columns `pd.DataFrame(records)` gets. */
  function RecordColumns(acc: seq<string>, recs: seq<Record>): (cols: seq<string>)
    requires Distinct(acc)
    ensures Distinct(cols)
    ensures forall c :: c in acc ==> c in cols
    ensures forall i, c :: 0 <= i < |recs| && c in Keys(recs[i]) ==> c in cols
    ensures forall c :: c in cols ==> c in acc || exists i :: 0 <= i < |recs| && c in Keys(recs[i])
    ensures |acc| <= |cols| && cols[..|acc|] == acc
    decreases |recs|
  {
    if recs == [] then acc
    else
      var cols := RecordColumns(Union(acc, Keys(recs[0])), recs[1..]);
      assert forall i :: 0 <= i < |recs| - 1 ==> recs[1..][i] == recs[i + 1];
      assert cols[..|acc|] == Union(acc, Keys(recs[0]))[..|acc|];
      cols
  }

  /** Taking the records in two runs gives the labels of taking them at once. */
  lemma {:induction false} RecordColumnsAppend(acc: seq<string>, a: seq<Record>, b: seq<Record>)
    requires Distinct(acc)
    ensures RecordColumns(acc, a + b) == RecordColumns(RecordColumns(acc, a), b)
    decreases |a|
  {
    if a == [] {
      assert a + b == b;
    } else {
      assert (a + b)[0] == a[0] && (a + b)[1..] == a[1..] + b;
      RecordColumnsAppend(Union(acc, Keys(a[0])), a[1..], b);
    }
  }

  /**
   * First-seen order across records: the labels of the first `i` records
   * come first, so a label first seen in an earlier record precedes one
   * first seen in a later record.
   */
  lemma RecordColumnsPrefix(recs: seq<Record>, i: nat)
    requires i <= |recs|
    ensures var p := RecordColumns([], recs[..i]);
      |p| <= |RecordColumns([], recs)| && RecordColumns([], recs)[..|p|] == p
  {
    assert recs == recs[..i] + recs[i..];
    RecordColumnsAppend([], recs[..i], recs[i..]);
  }

  /** The first index of `x` is the position where it occurs with no earlier occurrence. */
  lemma IndexOfAt(s: seq<string>, p: nat, x: string)
    requires p < |s| && s[p] == x && x !in s[..p]
    ensures IndexOf(s, x) == p
  {
  }

  /** A label missing from a prefix of `u` is found after that prefix. */
  lemma IndexBeyondPrefix(u: seq<string>, pre: seq<string>, x: string)
    requires x in u && |pre| <= |u| && u[..|pre|] == pre && x !in pre
    ensures IndexOf(u, x) >= |pre|
  {
  }

  /** A new first label lands right after `a`, before any other new label. */
  lemma UnionNewHead(a: seq<string>, b: seq<string>, y: string)
    requires b != [] && b[0] !in a && y in b && y !in a && y != b[0]
    ensures b[0] in Union(a, b) && y in Union(a, b)
    ensures IndexOf(Union(a, b), b[0]) < IndexOf(Union(a, b), y)
  {
    var u := Union(a, b);
    var a' := a + [b[0]];
    assert u == Union(a', b[1..]);
    IndexOfAt(u, |a|, b[0]);
    IndexBeyondPrefix(u, a', y);
  }

  /**
   * First-seen order within one run of labels: of two new labels, the one
   * that occurs first in `b` comes first in the union.
   */
  lemma {:induction false} UnionFirstSeen(a: seq<string>, b: seq<string>, i: nat, j: nat)
    requires i < j < |b| && b[i] !in a && b[j] !in a
    requires forall t :: 0 <= t < i ==> b[t] != b[i]
    requires forall t :: 0 <= t < j ==> b[t] != b[j]
    ensures b[i] in Union(a, b) && b[j] in Union(a, b)
    ensures IndexOf(Union(a, b), b[i]) < IndexOf(Union(a, b), b[j])
    decreases |b|
  {
    if i == 0 {
      UnionNewHead(a, b, b[j]);
    } else {
      var a' := if b[0] in a then a else a + [b[0]];
      var c := b[1..];
      assert b[0] != b[i] && b[0] != b[j];
      assert b[i] !in a' && b[j] !in a';
      assert c[i - 1] == b[i] && c[j - 1] == b[j];
      assert forall t :: 0 <= t < i - 1 ==> c[t] != c[i - 1];
      assert forall t :: 0 <= t < j - 1 ==> c[t] != c[j - 1];
      UnionFirstSeen(a', c, i - 1, j - 1);
      assert Union(a, b) == Union(a', c);
    }
  }


  /** `pd.DataFrame(records)`: one row per record; a key a record lacks gives a null cell. */
  function FromRecords(recs: seq<Record>): (f: Frame)
    ensures Valid(f) && |f.rows| == |recs|
    ensures forall i, c :: 0 <= i < |recs| && c in Keys(recs[i]) ==> c in f.columns
    ensures forall c :: c in f.columns ==> exists i :: 0 <= i < |recs| && c in Keys(recs[i])
    ensures forall i, j :: 0 <= i < |recs| && 0 <= j < |f.columns| ==>
              f.rows[i][j] == GetOr(recs[i], f.columns[j], Null)
  {
    var cols := RecordColumns([], recs);
    Frame(cols, seq(|recs|, i requires 0 <= i < |recs| =>
      seq(|cols|, j requires 0 <= j < |cols| => GetOr(recs[i], cols[j], Null))))
  }

  function Zip(cols: seq<string>, row: Row): (d: Items)
    requires |cols| == |row|
    ensures Keys(d) == cols
  {
    seq(|cols|, j requires 0 <= j < |cols| => (cols[j], row[j]))
  }

  /** `df.to_dict("records")`: one dict per row, mapping each column label to its cell. */
  function ToRecords(f: Frame): (recs: seq<Record>)
    requires Rectangular(f)
    ensures |recs| == |f.rows|
  {
    seq(|f.rows|, i requires 0 <= i < |f.rows| => FromPairs(Zip(f.columns, f.rows[i])))
  }

  lemma {:induction false} UpdatedFresh(d: Items, pairs: Items)
    requires UniqueKeys(d + pairs)
    ensures Updated(d, pairs) == d + pairs
    decreases |pairs|
  {
    if pairs != [] {
      var k := pairs[0].0;
      forall i | 0 <= i < |d|
        ensures d[i].0 != k
      {
        assert (d + pairs)[i] == d[i] && (d + pairs)[|d|] == pairs[0];
      }
      assert k !in Keys(d);
      SetAppends(d, k, pairs[0].1);
      assert d + pairs == (d + [pairs[0]]) + pairs[1..];
      UpdatedFresh(d + [pairs[0]], pairs[1..]);
    }
  }

  lemma {:induction false} SetAppends(d: Items, k: string, v: Value)
    requires k !in Keys(d)
    ensures Set(d, k, v) == d + [(k, v)]
  {
    if d != [] {
      assert Keys(d[1..]) == Keys(d)[1..];
      SetAppends(d[1..], k, v);
      assert [d[0]] + (d[1..] + [(k, v)]) == d + [(k, v)];
    }
  }

  lemma {:induction false} UnionFresh(a: seq<string>, b: seq<string>)
    requires Distinct(a + b)
    ensures Union(a, b) == a + b
    decreases |b|
  {
    if b != [] {
      forall i | 0 <= i < |a|
        ensures a[i] != b[0]
      {
        assert (a + b)[i] == a[i] && (a + b)[|a|] == b[0];
      }
      assert a + b == (a + [b[0]]) + b[1..];
      UnionFresh(a + [b[0]], b[1..]);
    }
  }

  lemma {:induction false} RecordColumnsSame(acc: seq<string>, recs: seq<Record>)
    requires Distinct(acc)
    requires forall i :: 0 <= i < |recs| ==> Keys(recs[i]) == acc
    ensures RecordColumns(acc, recs) == acc
  {
    if recs != [] {
      UnionOfSubset(acc, Keys(recs[0]));
      RecordColumnsSame(acc, recs[1..]);
    }
  }

  /** Zipping distinct labels with cells gives a dict already in its final form. */
  lemma ZipIsRecord(cols: seq<string>, row: Row)
    requires Distinct(cols) && |cols| == |row|
    ensures UniqueKeys(Zip(cols, row))
    ensures FromPairs(Zip(cols, row)) == Zip(cols, row)
  {
    var z := Zip(cols, row);
    assert [] + z == z;
    UpdatedFresh([], z);
  }

  lemma ToRecordsColumns(f: Frame)
    requires Valid(f) && |f.rows| > 0
    ensures forall i :: 0 <= i < |f.rows| ==> UniqueKeys(ToRecords(f)[i]) && ToRecords(f)[i] == Zip(f.columns, f.rows[i])
    ensures RecordColumns([], ToRecords(f)) == f.columns
  {
    var recs := ToRecords(f);
    forall i | 0 <= i < |f.rows|
      ensures UniqueKeys(recs[i]) && recs[i] == Zip(f.columns, f.rows[i])
    {
      ZipIsRecord(f.columns, f.rows[i]);
    }
    assert Keys(recs[0]) == f.columns;
    assert [] + f.columns == f.columns;
    UnionFresh([], f.columns);
    RecordColumnsSame(f.columns, recs[1..]);
  }

  /** Decoding the records of a frame with at least one row gives the frame back. */
  lemma RecordsRoundTrip(f: Frame)
    requires Valid(f) && |f.rows| > 0
    ensures FromRecords(ToRecords(f)) == f
  {
    var recs := ToRecords(f);
    ToRecordsColumns(f);
    var g := FromRecords(recs);
    forall i | 0 <= i < |f.rows|
      ensures g.rows[i] == f.rows[i]
    {
      forall j | 0 <= j < |f.columns|
        ensures g.rows[i][j] == f.rows[i][j]
      {
        GetAt(recs[i], j);
      }
    }
  }
}
