/**
 * The write strategies of the sheet writer: append everything, append the
 * rows with a new primary key, or combine and deduplicate on the key. The
 * tables are `Frame`s; the key column is named by the `Primary_Key` request
 * parameter.
 */
module Merge {
  import opened Basics
  import opened PyValues
  import opened PyDicts
  import opened Frames

  /** `deduplicate_df(df, column)`: keep the last row of every key of `column`. */
  function DeduplicateDf(f: Frame, column: Value): (r: Result<Frame>)
    requires Rectangular(f)
    ensures r.Ok? <==> column.Str? && column.s in f.columns
    ensures r.Err? ==> r.error == KeyError(PyStr(column))
    ensures r.Ok? ==> var k := IndexOf(f.columns, column.s);
      && r.value.columns == f.columns && Rectangular(r.value) && Wide(f.rows, k)
      && Distinct(KeyColumn(r.value.rows, k))
      && (forall x :: x in KeyColumn(r.value.rows, k) <==> x in KeyColumn(f.rows, k))
      && (forall x :: x in r.value.rows ==> x[k] in KeyColumn(f.rows, k) && x == LastWithKey(f.rows, k, x[k]))
      && r.value.rows == DedupLast(f.rows, k)
  {
    if column.Str? && column.s in f.columns then
      var k := IndexOf(f.columns, column.s);
      DedupKeepsLast(f.rows, k);
      Ok(Frame(f.columns, DedupLast(f.rows, k)))
    else
      Err(KeyError(PyStr(column)))
  }

  /** `append_all`: `existing_df.append(input_df)`. */
  function AppendAll(input: Frame, existing: Frame): (r: Frame)
    requires Rectangular(input) && Rectangular(existing)
    ensures Rectangular(r) && r.columns == Union(existing.columns, input.columns)
    ensures |r.rows| == |existing.rows| + |input.rows|
    ensures forall i, j :: 0 <= i < |existing.rows| && 0 <= j < |r.columns| ==>
              r.rows[i][j] == CellAt(existing, i, r.columns[j])
    ensures forall i, j :: 0 <= i < |input.rows| && 0 <= j < |r.columns| ==>
              r.rows[|existing.rows| + i][j] == CellAt(input, i, r.columns[j])
  {
    Concat(existing, input)
  }

  /** Appending keeps every existing row, then adds every input row, and drops nothing. */
  lemma AppendAllSpec(input: Frame, existing: Frame)
    requires Rectangular(input) && Valid(existing)
    requires forall c :: c in input.columns ==> c in existing.columns
    ensures AppendAll(input, existing).columns == existing.columns
    ensures AppendAll(input, existing).rows == existing.rows + Conform(input, existing.columns)
    ensures |AppendAll(input, existing).rows| == |existing.rows| + |input.rows|
  {
    UnionOfSubset(existing.columns, input.columns);
    ConformOwnColumns(existing);
  }

  /** The rows whose key cell is not among `keys`, in their order. */
  function KeyNotIn(rows: seq<Row>, k: nat, keys: seq<Value>): (r: seq<Row>)
    requires Wide(rows, k)
    ensures Wide(r, k)
    ensures forall x :: x in r ==> x in rows && x[k] !in keys
    ensures forall x :: x in rows && x[k] !in keys ==> x in r
  {
    if rows == [] then []
    else if rows[0][k] in keys then KeyNotIn(rows[1..], k, keys)
    else [rows[0]] + KeyNotIn(rows[1..], k, keys)
  }

  /**
   * The filter keeps rows in their order and never repeats one: filtering
   * two runs of rows one after the other is filtering each.
   */
  lemma {:induction false} KeyNotInAppend(a: seq<Row>, b: seq<Row>, k: nat, keys: seq<Value>)
    requires Wide(a, k) && Wide(b, k)
    ensures Wide(a + b, k)
    ensures KeyNotIn(a + b, k, keys) == KeyNotIn(a, k, keys) + KeyNotIn(b, k, keys)
    decreases |a|
  {
    if a == [] {
      assert a + b == b;
    } else {
      assert (a + b)[0] == a[0] && (a + b)[1..] == a[1..] + b;
      KeyNotInAppend(a[1..], b, k, keys);
    }
  }

  /**
   * Deduplication keeps rows in their order: a row of the first run stays
   * exactly when its key occurs neither later in that run nor in the second
   * run, and the deduplicated second run follows.
   */
  lemma {:induction false} DedupLastAppend(a: seq<Row>, b: seq<Row>, k: nat)
    requires Wide(a, k) && Wide(b, k)
    ensures Wide(a + b, k)
    ensures DedupLast(a + b, k) == KeyNotIn(DedupLast(a, k), k, KeyColumn(b, k)) + DedupLast(b, k)
    decreases |a|
  {
    if a == [] {
      assert a + b == b;
    } else {
      assert a == [a[0]] + a[1..];
      assert a + b == [a[0]] + (a[1..] + b);
      DedupLastAppend(a[1..], b, k);
      DedupLastAppendCons(a[0], a[1..], b, k);
    }
  }

  /** The step of `DedupLastAppend`: one more row in front of the first run. */
  lemma DedupLastAppendCons(x: Row, rest: seq<Row>, b: seq<Row>, k: nat)
    requires Wide(rest, k) && Wide(b, k) && k < |x|
    requires Wide(rest + b, k)
    requires DedupLast(rest + b, k) == KeyNotIn(DedupLast(rest, k), k, KeyColumn(b, k)) + DedupLast(b, k)
    ensures Wide([x] + rest, k) && Wide([x] + (rest + b), k)
    ensures DedupLast([x] + (rest + b), k)
            == KeyNotIn(DedupLast([x] + rest, k), k, KeyColumn(b, k)) + DedupLast(b, k)
  {
    var kb := KeyColumn(b, k);
    var d := DedupLast(rest, k);
    KeyColumnAppend(rest, b, k);
    DedupLastCons(x, rest + b, k);
    DedupLastCons(x, rest, k);
    if x[k] !in KeyColumn(rest, k) {
      KeyNotInCons(x, d, k, kb);
      if x[k] !in kb {
        AppendAssoc([x], KeyNotIn(d, k, kb), DedupLast(b, k));
      }
    }
  }


  /** Deduplication, one row in front of the rest. */
  lemma DedupLastCons(x: Row, rest: seq<Row>, k: nat)
    requires Wide(rest, k) && k < |x|
    ensures Wide([x] + rest, k)
    ensures DedupLast([x] + rest, k)
            == if x[k] in KeyColumn(rest, k) then DedupLast(rest, k) else [x] + DedupLast(rest, k)
  {
    assert ([x] + rest)[0] == x && ([x] + rest)[1..] == rest;
  }

  /** The key filter, one row in front of the rest. */
  lemma KeyNotInCons(x: Row, rest: seq<Row>, k: nat, keys: seq<Value>)
    requires Wide(rest, k) && k < |x|
    ensures Wide([x] + rest, k)
    ensures KeyNotIn([x] + rest, k, keys) == if x[k] in keys then KeyNotIn(rest, k, keys) else [x] + KeyNotIn(rest, k, keys)
  {
    assert ([x] + rest)[0] == x && ([x] + rest)[1..] == rest;
  }


  /** Every key not among `keys` survives the filter. */
  lemma KeyNotInKeeps(rows: seq<Row>, k: nat, keys: seq<Value>)
    requires Wide(rows, k)
    ensures forall i :: 0 <= i < |rows| && rows[i][k] !in keys ==> rows[i][k] in KeyColumn(KeyNotIn(rows, k, keys), k)
  {
    var r := KeyNotIn(rows, k, keys);
    forall i | 0 <= i < |rows| && rows[i][k] !in keys
      ensures rows[i][k] in KeyColumn(r, k)
    {
      assert rows[i] in r;
      var j :| 0 <= j < |r| && r[j] == rows[i];
      assert KeyColumn(r, k)[j] == rows[i][k];
    }
  }

  /** Filtering out other keys does not change which row is last for a kept key. */
  lemma {:induction false} KeyNotInLast(rows: seq<Row>, k: nat, keys: seq<Value>, key: Value)
    requires Wide(rows, k) && key !in keys && key in KeyColumn(KeyNotIn(rows, k, keys), k)
    ensures key in KeyColumn(rows, k)
    ensures LastWithKey(KeyNotIn(rows, k, keys), k, key) == LastWithKey(rows, k, key)
  {
    assert rows != [];
    var tail := KeyNotIn(rows[1..], k, keys);
    LastWithKeyCons(rows[0], rows[1..], k, key);
    if rows[0][k] in keys {
      KeyNotInLast(rows[1..], k, keys, key);
    } else {
      LastWithKeyCons(rows[0], tail, k, key);
      if key in KeyColumn(tail, k) {
        KeyNotInLast(rows[1..], k, keys, key);
      } else {
        KeyNotInAbsent(rows[1..], k, keys, key);
      }
    }
  }


  /** A key the filter does not show and that is not among `keys` is not in the rows at all. */
  lemma KeyNotInAbsent(rows: seq<Row>, k: nat, keys: seq<Value>, key: Value)
    requires Wide(rows, k) && key !in keys && key !in KeyColumn(KeyNotIn(rows, k, keys), k)
    ensures key !in KeyColumn(rows, k)
  {
    KeyNotInKeeps(rows, k, keys);
  }

  /** The input rows `append_uniques` adds: the last row of each key that is not an existing key. */
  function UniqueRowsToAdd(rows: seq<Row>, k: nat, existingKeys: seq<Value>): (net: seq<Row>)
    requires Wide(rows, k)
    ensures Wide(net, k)
    ensures forall x :: x in net ==> x in rows && x[k] !in existingKeys
    ensures Distinct(KeyColumn(net, k))
  {
    DedupLast(KeyNotIn(rows, k, existingKeys), k)
  }

  /**
   * The net-new rows keep the input order: those of a first run of input
   * rows stay unless a later run brings their key again, and the second
   * run's net-new rows follow.
   */
  lemma UniqueRowsToAddAppend(a: seq<Row>, b: seq<Row>, k: nat, existingKeys: seq<Value>)
    requires Wide(a, k) && Wide(b, k)
    ensures Wide(a + b, k)
    ensures UniqueRowsToAdd(a + b, k, existingKeys)
            == KeyNotIn(UniqueRowsToAdd(a, k, existingKeys), k, KeyColumn(KeyNotIn(b, k, existingKeys), k))
               + UniqueRowsToAdd(b, k, existingKeys)
  {
    KeyNotInAppend(a, b, k, existingKeys);
    DedupLastAppend(KeyNotIn(a, k, existingKeys), KeyNotIn(b, k, existingKeys), k);
  }

  /**
   * Every input key that is not an existing key is added once, carried by the
   * last input row with that key; nothing is added exactly when every input
   * key already exists.
   */
  lemma UniqueRowsToAddSpec(rows: seq<Row>, k: nat, existingKeys: seq<Value>)
    requires Wide(rows, k)
    ensures var net := UniqueRowsToAdd(rows, k, existingKeys);
      && (forall i :: 0 <= i < |rows| && rows[i][k] !in existingKeys ==> rows[i][k] in KeyColumn(net, k))
      && (forall x :: x in net ==> x[k] in KeyColumn(rows, k) && x == LastWithKey(rows, k, x[k]))
      && (net == [] <==> forall i :: 0 <= i < |rows| ==> rows[i][k] in existingKeys)
  {
    var unseen := KeyNotIn(rows, k, existingKeys);
    var net := UniqueRowsToAdd(rows, k, existingKeys);
    DedupKeepsLast(unseen, k);
    forall x | x in net
      ensures x[k] in KeyColumn(rows, k) && x == LastWithKey(rows, k, x[k])
    {
      KeyNotInLast(rows, k, existingKeys, x[k]);
    }
    UniqueRowsToAddEmpty(rows, k, existingKeys);
  }

  /** Nothing is added exactly when every input key already exists. */
  lemma UniqueRowsToAddEmpty(rows: seq<Row>, k: nat, existingKeys: seq<Value>)
    requires Wide(rows, k)
    ensures UniqueRowsToAdd(rows, k, existingKeys) == [] <==> forall i :: 0 <= i < |rows| ==> rows[i][k] in existingKeys
  {
    var net := UniqueRowsToAdd(rows, k, existingKeys);
    KeyNotInKeeps(rows, k, existingKeys);
    if net != [] {
      assert net[0] in rows && net[0][k] !in existingKeys;
    }
  }

  /** What `append_uniques` hands back besides an exception. */
  datatype UniquesOutcome =
    | Added(frame: Frame)
    | NoUniques(message: string)

  const NoUniqueRowsMessage := "Matching columns. No unique rows to add."

  /** The column a `Primary_Key` value names in `f`, or the KeyError that looking it up raises. */
  function KeyIndex(f: Frame, key: Value): (r: Result<nat>)
    ensures r.Ok? <==> key.Str? && key.s in f.columns
    ensures r.Ok? ==> r.value < |f.columns| && f.columns[r.value] == key.s
    ensures r.Err? ==> r.error == KeyError(PyStr(key))
  {
    if key.Str? && key.s in f.columns then Ok(IndexOf(f.columns, key.s)) else Err(KeyError(PyStr(key)))
  }

  /** What `append_uniques` decides once the key is column `ki` of the input and `ke` of the existing table. */
  function UniquesOn(input: Frame, existing: Frame, ki: nat, ke: nat): (r: UniquesOutcome)
    requires Rectangular(input) && Rectangular(existing)
    requires Wide(input.rows, ki) && Wide(existing.rows, ke)
    ensures var net := UniqueRowsToAdd(input.rows, ki, KeyColumn(existing.rows, ke));
      && ((forall i :: 0 <= i < |input.rows| ==> input.rows[i][ki] in KeyColumn(existing.rows, ke))
          <==> r == NoUniques(NoUniqueRowsMessage))
      && (r.Added? ==> r.frame == Concat(existing, Frame(input.columns, net)))
  {
    var net := UniqueRowsToAdd(input.rows, ki, KeyColumn(existing.rows, ke));
    UniqueRowsToAddEmpty(input.rows, ki, KeyColumn(existing.rows, ke));
    if |net| == 0 then NoUniques(NoUniqueRowsMessage)
    else
      assert net != [];
      Added(Concat(existing, Frame(input.columns, net)))
  }

  /** The key column `KeyIndex` finds is present in every row of a rectangular table. */
  lemma KeyIndexWide(f: Frame, key: Value)
    requires Rectangular(f) && KeyIndex(f, key).Ok?
    ensures Wide(f.rows, KeyIndex(f, key).value)
  {
  }

  /**
   * `append_uniques`: the existing table followed by the net-new input rows,
   * or the message that there are none.
   */
  function AppendUniques(input: Frame, existing: Frame, params: Items): (r: Result<UniquesOutcome>)
    requires Rectangular(input) && Rectangular(existing)
    ensures Get(params, "Primary_Key").None? ==> r == Err(KeyError("Primary_Key"))
    ensures r.Ok? <==> exists key :: Get(params, "Primary_Key") == Some(key)
                                   && KeyIndex(input, key).Ok? && KeyIndex(existing, key).Ok?
    ensures r.Ok? ==>
      var key := Get(params, "Primary_Key").value;
      var ki := KeyIndex(input, key).value;
      var ke := KeyIndex(existing, key).value;
      var net := UniqueRowsToAdd(input.rows, ki, KeyColumn(existing.rows, ke));
      && ((forall i :: 0 <= i < |input.rows| ==> input.rows[i][ki] in KeyColumn(existing.rows, ke))
          <==> r.value == NoUniques(NoUniqueRowsMessage))
      && (r.value.Added? ==> r.value.frame == Concat(existing, Frame(input.columns, net)))
  {
    match Get(params, "Primary_Key")
    case None => Err(KeyError("Primary_Key"))
    case Some(key) =>
      match KeyIndex(input, key)
      case Err(e) => Err(e)
      case Ok(ki) =>
        match KeyIndex(existing, key)
        case Err(e) => Err(e)
        case Ok(ke) =>
          KeyIndexWide(input, key);
          KeyIndexWide(existing, key);
          Ok(UniquesOn(input, existing, ki, ke))
  }

  /** A key of the table `f`: a cell of the table's column `k`. */
  lemma KeyColumnHas(rows: seq<Row>, k: nat, p: nat)
    requires Wide(rows, k) && p < |rows|
    ensures rows[p][k] in KeyColumn(rows, k)
  {
    assert KeyColumn(rows, k)[p] == rows[p][k];
  }

  /** Appending rows on a subset of the columns keeps the columns and every key of both tables. */
  lemma AppendedKeys(existing: Frame, added: Frame, key: string)
    requires Rectangular(existing) && Rectangular(added)
    requires forall c :: c in added.columns ==> c in existing.columns
    requires key in added.columns
    ensures var ke := IndexOf(existing.columns, key);
      var ka := IndexOf(added.columns, key);
      var after := Concat(existing, added);
      && after.columns == existing.columns && Wide(after.rows, ke) && Wide(added.rows, ka)
      && (forall v :: v in KeyColumn(existing.rows, ke) ==> v in KeyColumn(after.rows, ke))
      && (forall v :: v in KeyColumn(added.rows, ka) ==> v in KeyColumn(after.rows, ke))
  {
    var ke := IndexOf(existing.columns, key);
    var ka := IndexOf(added.columns, key);
    var after := Concat(existing, added);
    UnionOfSubset(existing.columns, added.columns);
    forall v | v in KeyColumn(existing.rows, ke)
      ensures v in KeyColumn(after.rows, ke)
    {
      var p :| 0 <= p < |existing.rows| && KeyColumn(existing.rows, ke)[p] == v;
      assert after.rows[p][ke] == CellAt(existing, p, key);
      KeyColumnHas(after.rows, ke, p);
    }
    forall v | v in KeyColumn(added.rows, ka)
      ensures v in KeyColumn(after.rows, ke)
    {
      var t :| 0 <= t < |added.rows| && KeyColumn(added.rows, ka)[t] == v;
      assert after.rows[|existing.rows| + t][ke] == CellAt(added, t, key);
      KeyColumnHas(after.rows, ke, |existing.rows| + t);
    }
  }

  /** Values each found in one of two collections are all found in a third that holds both. */
  lemma CoveredBy(vals: seq<Value>, a: seq<Value>, b: seq<Value>, c: seq<Value>)
    requires forall v :: v in a ==> v in c
    requires forall v :: v in b ==> v in c
    requires forall i :: 0 <= i < |vals| ==> vals[i] in a || vals[i] in b
    ensures forall i :: 0 <= i < |vals| ==> vals[i] in c
  {
  }

  /** Every input key is a key of the table the net-new rows are appended to. */
  lemma AddedCoversInputKeys(input: Frame, existing: Frame, key: string)
    requires Rectangular(input) && Rectangular(existing)
    requires forall c :: c in input.columns ==> c in existing.columns
    requires key in input.columns
    ensures var ki := IndexOf(input.columns, key);
      var ke := IndexOf(existing.columns, key);
      && Wide(input.rows, ki) && Wide(existing.rows, ke)
      && var net := UniqueRowsToAdd(input.rows, ki, KeyColumn(existing.rows, ke));
      && Rectangular(Frame(input.columns, net))
      && var after := Concat(existing, Frame(input.columns, net));
      && after.columns == existing.columns && Wide(after.rows, ke)
      && forall i :: 0 <= i < |input.rows| ==> input.rows[i][ki] in KeyColumn(after.rows, ke)
  {
    var ki := IndexOf(input.columns, key);
    var ke := IndexOf(existing.columns, key);
    var keys := KeyColumn(existing.rows, ke);
    var net := UniqueRowsToAdd(input.rows, ki, keys);
    forall t | 0 <= t < |net|
      ensures |net[t]| == |input.columns|
    {
      assert net[t] in net;
    }
    var added := Frame(input.columns, net);
    AppendedKeys(existing, added, key);
    UniqueRowsToAddSpec(input.rows, ki, keys);
    CoveredBy(KeyColumn(input.rows, ki), keys, KeyColumn(net, ki), KeyColumn(Concat(existing, added).rows, ke));
  }

  /**
   * Appending the unique rows is idempotent: run again with the same input
   * against the table the first run wrote (or the unchanged table when the
   * first run added nothing), it finds no unique rows to add.
   */
  lemma AppendUniquesIdempotent(input: Frame, existing: Frame, params: Items, key: string)
    requires Rectangular(input) && Rectangular(existing)
    requires forall c :: c in input.columns ==> c in existing.columns
    requires Get(params, "Primary_Key") == Some(Str(key)) && key in input.columns
    ensures AppendUniques(input, existing, params).Ok?
    ensures var once := AppendUniques(input, existing, params).value;
      var after := if once.Added? then once.frame else existing;
      && Rectangular(after)
      && AppendUniques(input, after, params) == Ok(NoUniques(NoUniqueRowsMessage))
  {
    var ki := IndexOf(input.columns, key);
    var ke := IndexOf(existing.columns, key);
    assert KeyIndex(input, Str(key)) == Ok(ki) && KeyIndex(existing, Str(key)) == Ok(ke);
    var once := AppendUniques(input, existing, params).value;
    if once.Added? {
      AddedCoversInputKeys(input, existing, key);
      var after := once.frame;
      assert KeyIndex(after, Str(key)) == Ok(ke);
    }
  }

  /** `combine_and_deduplicate`: input rows then existing rows, the last row of each key kept. */
  function CombineAndDeduplicate(input: Frame, existing: Frame, params: Items): (r: Result<Frame>)
    requires Rectangular(input) && Rectangular(existing)
    ensures Get(params, "Primary_Key").None? ==> r == Err(KeyError("Primary_Key"))
    ensures r.Ok? <==> exists key :: Get(params, "Primary_Key") == Some(key)
                                   && KeyIndex(Concat(input, existing), key).Ok?
    ensures r.Ok? ==> r.value.columns == Union(input.columns, existing.columns) && Rectangular(r.value)
  {
    match Get(params, "Primary_Key")
    case None => Err(KeyError("Primary_Key"))
    case Some(key) => DeduplicateDf(Concat(input, existing), key)
  }

  /**
   * After combining, keys are unique, no key is lost, and a key present in the
   * existing table keeps the last existing row with it: existing rows win.
   */
  lemma CombineExistingWins(input: Frame, existing: Frame, params: Items)
    requires Rectangular(input) && Rectangular(existing)
    requires Get(params, "Primary_Key").Some? && Get(params, "Primary_Key").value.Str?
    requires Get(params, "Primary_Key").value.s in Union(input.columns, existing.columns)
    ensures CombineAndDeduplicate(input, existing, params).Ok?
    ensures var u := Union(input.columns, existing.columns);
      var k := IndexOf(u, Get(params, "Primary_Key").value.s);
      var a := Conform(input, u);
      var b := Conform(existing, u);
      var g := CombineAndDeduplicate(input, existing, params).value;
      && Wide(a, k) && Wide(b, k) && Wide(g.rows, k)
      && Distinct(KeyColumn(g.rows, k))
      && (forall x :: x in KeyColumn(g.rows, k) <==> x in KeyColumn(a, k) || x in KeyColumn(b, k))
      && (forall x :: x in g.rows ==>
            if x[k] in KeyColumn(b, k) then x == LastWithKey(b, k, x[k]) else x == LastWithKey(a, k, x[k]))
  {
    var key := Get(params, "Primary_Key").value;
    var m := Concat(input, existing);
    assert KeyIndex(m, key).Ok?;
    var u := m.columns;
    var k := IndexOf(u, key.s);
    var a := Conform(input, u);
    var b := Conform(existing, u);
    var g := CombineAndDeduplicate(input, existing, params).value;
    assert m.rows == a + b;
    KeyColumnAppend(a, b, k);
    forall x | x in g.rows
      ensures if x[k] in KeyColumn(b, k) then x == LastWithKey(b, k, x[k]) else x == LastWithKey(a, k, x[k])
    {
      LastWithKeyAppend(a, b, k, x[k]);
    }
  }
}
