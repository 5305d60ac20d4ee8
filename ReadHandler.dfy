/**
 * The sheet reader: validate the request, turn the records of the named tab
 * into a table, drop empty columns and rows when asked, and answer with the
 * rows as records, or with a message when the sheet's header has a repeated
 * label. Fetching the records is outside this model; they are an input.
 */
module ReadHandler {
  import opened Basics
  import opened PyValues
  import opened PyDicts
  import opened Frames
  import opened Lambda
  import opened UtilEvents

  const ReadRequired: seq<string> := ["Gsheet", "Tab"]
  const ReadOptional: seq<string> := ["Drop_Empty_Columns", "Drop_Empty_Rows"]

  const DuplicateHeadersMessage := "You have duplicate column headers in your GSheet"

  /** `df.to_dict("records")` as the value handed to `package_response`. */
  function RecordsValue(f: Frame): (v: Value)
    requires Rectangular(f)
    ensures v.List? && |v.elems| == |f.rows|
  {
    var recs := ToRecords(f);
    List(seq(|recs|, i requires 0 <= i < |recs| => Dict(recs[i])))
  }

  /**
   * The table after the clean-ups, in the reader's order: columns first,
   * then rows. Only all-empty columns and rows go: every column holding a
   * value keeps its label, and the rows left are as many as the non-empty
   * rows of the table.
   */
  function Cleaned(params: Items, f: Frame): (g: Frame)
    requires Rectangular(f)
    ensures Rectangular(g)
    ensures !Given(params, "Drop_Empty_Columns") ==> g.columns == f.columns
    ensures !Given(params, "Drop_Empty_Rows") ==> |g.rows| == |f.rows|
    ensures !Given(params, "Drop_Empty_Columns") && !Given(params, "Drop_Empty_Rows") ==> g == f
    ensures forall c :: 0 <= c < |f.columns| && ColumnHasValue(f, c) ==> f.columns[c] in g.columns
    ensures Given(params, "Drop_Empty_Rows") ==>
      |g.rows| == |NonEmptyRows(f.rows)| && forall i :: 0 <= i < |g.rows| ==> !AllNull(g.rows[i])
  {
    var g1 := if Given(params, "Drop_Empty_Columns") then DropEmptyColumns(f) else f;
    CleanedKeepsColumns(f, g1);
    DropEmptyCommutes(f);
    if Given(params, "Drop_Empty_Rows") then DropEmptyRows(g1) else g1
  }

  /** Dropping empty columns keeps the label of every column holding a value. */
  lemma CleanedKeepsColumns(f: Frame, g1: Frame)
    requires Rectangular(f) && (g1 == f || g1 == DropEmptyColumns(f))
    ensures forall c :: 0 <= c < |f.columns| && ColumnHasValue(f, c) ==> f.columns[c] in g1.columns
  {
    forall c | 0 <= c < |f.columns| && ColumnHasValue(f, c)
      ensures f.columns[c] in g1.columns
    {
      if g1 != f {
        DropEmptyColumnsKeeps(f, c);
        var t :| SameColumn(g1, t, f, c);
      }
    }
  }

  /**
   * The end of `read_from_gsheet` on the table `f`: the labels are checked
   * for repeats as they were before any column was dropped.
   */
  function ReadTable(params: Items, f: Frame): (r: Value)
    requires Rectangular(f)
    ensures r.List? <==> Distinct(f.columns)
    ensures !r.List? ==> r == Str(DuplicateHeadersMessage)
  {
    if !Distinct(f.columns) then Str(DuplicateHeadersMessage) else RecordsValue(Cleaned(params, f))
  }

  /** With both drops asked for, no written row is all empty and every column holds a value. */
  lemma CleanedSpec(params: Items, f: Frame)
    requires Rectangular(f)
    requires Given(params, "Drop_Empty_Columns") && Given(params, "Drop_Empty_Rows")
    ensures var g := Cleaned(params, f);
      && (forall i :: 0 <= i < |g.rows| ==> !AllNull(g.rows[i]))
      && (forall t :: 0 <= t < |g.columns| ==> ColumnHasValue(g, t))
  {
    var g1 := DropEmptyColumns(f);
    DropEmptyColumnsNonEmpty(f);
    forall t | 0 <= t < |g1.columns|
      ensures ColumnHasValue(DropEmptyRows(g1), t)
    {
      RowsKeepColumnValues(g1, t);
    }
  }

  /**
   * The repeat check looks at the labels before the drop: a repeated label
   * whose columns are all empty still yields the message, although the
   * cleaned table would have distinct labels.
   */
  lemma DuplicateCheckBeforeDrop()
    ensures var params: Items := [("Drop_Empty_Columns", Bool(true))];
      var f := Frame(["id", "", ""], [[Int(1), Null, Null]]);
      && Distinct(Cleaned(params, f).columns)
      && ReadTable(params, f) == Str(DuplicateHeadersMessage)
  {
    var params: Items := [("Drop_Empty_Columns", Bool(true))];
    var f := Frame(["id", "", ""], [[Int(1), Null, Null]]);
    assert !Distinct(f.columns) by {
      assert f.columns[1] == f.columns[2];
    }
    assert ColumnHasValue(f, 0) by {
      assert f.rows[0][0] != Null;
    }
    assert NonEmptyColumnsFrom(f, 2) == [];
    assert NonEmptyColumnsFrom(f, 0) == [0];
    assert Cleaned(params, f).columns == ["id"];
  }

  /** `read_from_gsheet(params)` on the records `recs` of the tab `params` names. */
  function ReadFromGsheet(params: Items, recs: seq<Record>): (r: Result<Value>)
    ensures r.Err? <==> "Gsheet" !in Keys(params) || "Tab" !in Keys(params)
    ensures r.Err? ==> r.error.KeyError?
  {
    if "Gsheet" !in Keys(params) then Err(KeyError("Gsheet"))
    else if "Tab" !in Keys(params) then Err(KeyError("Tab"))
    else Ok(ReadTable(params, FromRecords(recs)))
  }

  /**
   * A table built from records never has a repeated label, so the reader
   * always answers with records once `Gsheet` and `Tab` are given.
   */
  lemma ReadFromGsheetRecords(params: Items, recs: seq<Record>)
    requires "Gsheet" in Keys(params) && "Tab" in Keys(params)
    ensures ReadFromGsheet(params, recs).Ok? && ReadFromGsheet(params, recs).value.List?
  {
  }

  /** Without clean-ups, reading the records of a table with at least one row gives those records back. */
  lemma ReadRoundTrip(params: Items, f: Frame)
    requires "Gsheet" in Keys(params) && "Tab" in Keys(params)
    requires Valid(f) && |f.rows| > 0
    requires !Given(params, "Drop_Empty_Columns") && !Given(params, "Drop_Empty_Rows")
    ensures ReadFromGsheet(params, ToRecords(f)) == Ok(RecordsValue(f))
  {
    RecordsRoundTrip(f);
  }

  /** The reply once `validate_params` has returned `v`: 200 for records, 500 for the message. */
  function ReadReply(v: (Items, Missing), recs: seq<Record>): Outcome {
    var (params, missing) := v;
    if MissingTruthy(missing) then Reply(MissingMessage(missing.names), 422)
    else
      match ReadFromGsheet(params, recs)
      case Err(e) => Raised(e)
      case Ok(result) => Returned(PackageResponse(result, Int(if result.List? then 200 else 500)))
  }

  /**
   * Whatever order the overlap list comes in, as long as it holds the
   * present required names, a request holding `Gsheet` and `Tab` gets with
   * status 200 the records of the table, cleaned as the event's flags ask,
   * and one lacking either gets 422 with the message naming the absent ones.
   */
  lemma ReadReplySpec(std: Items, overlap: seq<string>, recs: seq<Record>)
    requires multiset(overlap) == multiset(PresentNames(ReadRequired, Keys(std)))
    ensures var out := ReadReply(ValidateParams(std, ReadRequired, ReadOptional, overlap), recs);
      && out.Returned?
      && (out.response.statusCode == Int(422) <==> !AllPresent(ReadRequired, Keys(std)))
      && (out.response.statusCode == Int(200) <==> AllPresent(ReadRequired, Keys(std)))
      && (out.response.statusCode == Int(422) ==>
            Data(out.response) == Some(Str(MissingMessage(MissingNames(ReadRequired, Keys(std))))))
      && (out.response.statusCode == Int(200) ==>
            Data(out.response) == Some(RecordsValue(Cleaned(std, FromRecords(recs)))))
  {
    ValidateParamsMissing(std, ReadRequired, ReadOptional, overlap);
    var (params, missing) := ValidateParams(std, ReadRequired, ReadOptional, overlap);
    if MissingTruthy(missing) {
      assert ReadReply((params, missing), recs) == Reply(MissingMessage(missing.names), 422);
    } else {
      ReadParamsAgree(std, overlap);
      ReadReplyRecords(params, missing, recs);
      PackageResponseSpec(RecordsValue(Cleaned(params, FromRecords(recs))), Int(200));
      CleanedFlags(params, std, FromRecords(recs));
    }
  }

  /** The validated parameters carry the event's values of the reader's names. */
  lemma ReadParamsAgree(std: Items, overlap: seq<string>)
    ensures var params := ValidateParams(std, ReadRequired, ReadOptional, overlap).0;
      && Get(params, "Gsheet") == Get(std, "Gsheet") && Get(params, "Tab") == Get(std, "Tab")
      && Get(params, "Drop_Empty_Columns") == Get(std, "Drop_Empty_Columns")
      && Get(params, "Drop_Empty_Rows") == Get(std, "Drop_Empty_Rows")
  {
    assert ReadRequired + ReadOptional == ["Gsheet", "Tab", "Drop_Empty_Columns", "Drop_Empty_Rows"];
  }

  /** Once `Gsheet` and `Tab` are given and nothing is missing, the reply carries the cleaned records with 200. */
  lemma ReadReplyRecords(params: Items, missing: Missing, recs: seq<Record>)
    requires !MissingTruthy(missing) && "Gsheet" in Keys(params) && "Tab" in Keys(params)
    ensures ReadReply((params, missing), recs)
            == Returned(PackageResponse(RecordsValue(Cleaned(params, FromRecords(recs))), Int(200)))
  {
    ReadFromGsheetRecords(params, recs);
  }

  /** The clean-ups depend only on the two flags. */
  lemma CleanedFlags(a: Items, b: Items, f: Frame)
    requires Rectangular(f)
    requires Get(a, "Drop_Empty_Columns") == Get(b, "Drop_Empty_Columns")
    requires Get(a, "Drop_Empty_Rows") == Get(b, "Drop_Empty_Rows")
    ensures Cleaned(a, f) == Cleaned(b, f)
  {
  }

  /**
   * `lambda_handler(event, context)`, with `standardize_dict` as
   * `standardize`, `get_list_overlap` as `listOverlap`, and `recs` the
   * records of the requested tab.
   */
  method LambdaHandler(event: PyDict, standardize: Items -> Items,
                       listOverlap: (Items, seq<string>) -> seq<string>, recs: seq<Record>)
    returns (out: Outcome)
    requires event.Valid()
    modifies event
    ensures event.Valid()
    ensures event.items == EventAfter(old(event.items))
    ensures out == match MergedEvent(old(event.items))
                   case Ok(m) =>
                     var std := standardize(m);
                     ReadReply(ValidateParams(std, ReadRequired, ReadOptional, listOverlap(std, ReadRequired)), recs)
                   case Err(e) => Raised(e)
  {
    var v := ValidateEvent(event, ReadRequired, ReadOptional, standardize, listOverlap);
    if v.Err? {
      return Raised(v.error);
    }
    var (params, missing) := v.value;
    if MissingTruthy(missing) {
      return Reply(MissingMessage(missing.names), 422);
    }
    var result := ReadFromGsheet(params, recs);
    if result.Err? {
      return Raised(result.error);
    }
    var status := if result.value.List? then 200 else 500;
    out := Returned(PackageResponse(result.value, Int(status)));
  }
}
