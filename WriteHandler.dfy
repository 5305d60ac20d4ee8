/**
 * The sheet writer's entry point: validate the request, pick the write
 * strategy named by `Type`, clean up the merged table as asked, and write it
 * to the worksheet. Fetching the input and existing tables (and creating a
 * missing tab) happens before the decisions modelled here; those tables are
 * inputs.
 */
module WriteHandler {
  import opened Basics
  import opened PyStrings
  import opened PyValues
  import opened PyDicts
  import opened Frames
  import opened Merge
  import opened SheetWriter
  import opened Lambda
  import opened SheetEvents

  const RequiredParams: seq<string> := ["Data", "Gsheet", "Tab", "Type"]
  const OptionalParams: seq<string> := ["Resize", "Drop_Empty_Rows", "Drop_Empty_Columns", "Primary_Key", "Maintain_Column_Order"]

  /** The types that need a `Primary_Key`. */
  const KeyedTypes: seq<string> := ["Append_Uniques", "Combine_Uniques"]

  /**
   * The spelling of `Type` the Primary_Key guard compares: as given, which
   * is what the handler does, or titled, as the dispatch below it does.
   */
  datatype KeyGuard = RawType | TitledType

  function GuardedType(t: string, guard: KeyGuard): string {
    if guard == RawType then t else Title(t)
  }

  /** What the handler decides to do once the tables are known. */
  datatype WritePlan =
    | Respond(message: string, status: int)
    | Write(frame: Frame, clearFirst: bool, resize: bool, message: string)
    | Fail(error: PyError)

  /** `param_dict.get("Resize", True)`, as `if resize:` reads it. */
  predicate ResizeFlag(params: Items) {
    Truthy(GetOr(params, "Resize", Bool(true)))
  }

  /** `set(a).issubset(b)`. */
  predicate Subset(a: seq<string>, b: seq<string>) {
    forall c :: c in a ==> c in b
  }

  /** The table `overwrite_gsheet_tab` writes. */
  function OverwriteFrame(input: Frame, params: Items): (r: Frame)
    ensures r.columns == input.columns
    ensures Valid(input) ==> Valid(r)
    ensures forall x :: x in r.rows ==> x in input.rows
    ensures forall x :: x in input.rows && !AllNull(x) ==> x in r.rows
    ensures Given(params, "Drop_Empty_Rows") ==> forall i :: 0 <= i < |r.rows| ==> !AllNull(r.rows[i])
    ensures !Given(params, "Drop_Empty_Rows") ==> r == input
  {
    if Given(params, "Drop_Empty_Rows") then DropEmptyRows(input) else input
  }

  function NotSubsetMessage(input: seq<string>, existing: seq<string>): string {
    "The columns of your input data " + PyRepr(StrList(input))
      + " are not a subset of the columns of the existing tab " + PyRepr(StrList(existing)) + "."
  }

  function NeedKeyMessage(t: string): string {
    "You need a Primary_Key to do " + t
  }

  function UnsupportedMessage(t: string): string {
    "Unsupported Type: " + t + " "
  }

  /** What a write strategy hands back. */
  datatype StrategyResult =
    | Merged(frame: Frame)
    | EarlyReply(message: string)
    | Threw(error: PyError)
    | Unsupported

  /** The strategy the titled `Type` names, applied to the input and existing tables. */
  function Strategy(t: string, input: Frame, existing: Frame, params: Items): (r: StrategyResult)
    requires Valid(input) && Valid(existing)
    ensures r.Merged? ==> Valid(r.frame) && Subset(existing.columns, r.frame.columns)
    ensures r.Threw? ==> t in KeyedTypes
    ensures r.EarlyReply? ==> t == "Append_Uniques" && r.message == NoUniqueRowsMessage
    ensures r.Unsupported? <==> t !in ["Append_All"] + KeyedTypes
    ensures t in KeyedTypes && Get(params, "Primary_Key").None? ==> r == Threw(KeyError("Primary_Key"))
  {
    if t == "Append_All" then Merged(AppendAll(input, existing))
    else if t == "Append_Uniques" then
      match AppendUniques(input, existing, params)
      case Err(e) => Threw(e)
      case Ok(NoUniques(m)) => EarlyReply(m)
      case Ok(Added(g)) => Merged(g)
    else if t == "Combine_Uniques" then
      match CombineAndDeduplicate(input, existing, params)
      case Err(e) => Threw(e)
      case Ok(g) => Merged(g)
    else Unsupported
  }

  /**
   * The optional clean-ups after a merge, in the handler's order: empty rows,
   * then empty columns (which also replaces the column order to keep), then
   * the column selection.
   */
  function PostProcess(params: Items, g: Frame, order: seq<string>): (r: Result<Frame>)
    requires Rectangular(g)
    ensures r.Ok? ==> Rectangular(r.value)
    ensures !Given(params, "Maintain_Column_Order") ==> r.Ok?
  {
    var g1 := if Given(params, "Drop_Empty_Rows") then DropEmptyRows(g) else g;
    var g2 := if Given(params, "Drop_Empty_Columns") then DropEmptyColumns(g1) else g1;
    var keep := if Given(params, "Drop_Empty_Columns") then g2.columns else order;
    if Given(params, "Maintain_Column_Order") then Select(g2, keep) else Ok(g2)
  }

  /**
   * Keeping the column order never raises once the merged table holds every
   * existing column; the result then has exactly the existing columns in
   * their order, unless empty columns were dropped, which leaves the table as
   * the drop made it.
   */
  lemma MaintainColumnOrderNeverRaises(params: Items, g: Frame, order: seq<string>)
    requires Valid(g) && Subset(order, g.columns)
    ensures PostProcess(params, g, order).Ok?
    ensures Given(params, "Maintain_Column_Order") && !Given(params, "Drop_Empty_Columns") ==>
      PostProcess(params, g, order).value.columns == order
    ensures Given(params, "Drop_Empty_Columns") ==>
      var g1 := if Given(params, "Drop_Empty_Rows") then DropEmptyRows(g) else g;
      PostProcess(params, g, order) == Ok(DropEmptyColumns(g1))
  {
    var g1 := if Given(params, "Drop_Empty_Rows") then DropEmptyRows(g) else g;
    assert Valid(g1);
    if Given(params, "Drop_Empty_Columns") {
      DropEmptyColumnsValid(g1);
      SelectOwnColumns(DropEmptyColumns(g1));
    }
  }

  /**
   * With both drops asked for, the written table has no all-empty row and
   * no all-empty column, in whichever order the drops are applied.
   */
  lemma PostProcessClean(params: Items, g: Frame, order: seq<string>)
    requires Valid(g) && Subset(order, g.columns)
    requires Given(params, "Drop_Empty_Rows") && Given(params, "Drop_Empty_Columns")
    ensures PostProcess(params, g, order).Ok?
    ensures var h := PostProcess(params, g, order).value;
      && (forall i :: 0 <= i < |h.rows| ==> !AllNull(h.rows[i]))
      && (forall t :: 0 <= t < |h.columns| ==> ColumnHasValue(h, t))
  {
    MaintainColumnOrderNeverRaises(params, g, order);
    DropEmptyCommutes(g);
    DropEmptyColumnsNonEmpty(DropEmptyRows(g));
  }

  /**
   * The decisions of `lambda_handler` after validation, given the input
   * table, the existing table (`None` for a newly created tab), and the
   * spelling the Primary_Key guard compares.
   */
  function Plan(params: Items, input: Frame, existing: Option<Frame>, guard: KeyGuard): (p: WritePlan)
    requires Valid(input) && (existing.Some? ==> Valid(existing.value))
    ensures p.Write? ==> Valid(p.frame)
  {
    match Get(params, "Type")
    case None => Fail(KeyError("Type"))
    case Some(t) =>
      if !t.Str? then Fail(AttributeError("title"))
      else if Title(t.s) == "Overwrite" then
        Write(OverwriteFrame(input, params), true, ResizeFlag(params), "Overwrite successful")
      else if existing.None? then
        Write(OverwriteFrame(input, params), true, ResizeFlag(params), "New tab created; write successful")
      else PlanOnExisting(t.s, params, input, existing.value, guard)
  }

  /** The part of the plan that needs an existing tab: the guards, then the strategy. */
  function PlanOnExisting(t: string, params: Items, input: Frame, ex: Frame, guard: KeyGuard): (p: WritePlan)
    requires Valid(input) && Valid(ex)
    ensures p.Write? ==> Valid(p.frame) && !p.clearFirst
  {
    if !Subset(input.columns, ex.columns) then Respond(NotSubsetMessage(input.columns, ex.columns), 422)
    else if "Primary_Key" !in Keys(params) && GuardedType(t, guard) in KeyedTypes then
      Respond(NeedKeyMessage(t), 422)
    else PlanStrategy(t, params, input, ex)
  }

  /** Dispatch on the titled type, then the clean-ups of the merged table. */
  function PlanStrategy(t: string, params: Items, input: Frame, ex: Frame): (p: WritePlan)
    requires Valid(input) && Valid(ex)
    ensures p.Write? ==> Valid(p.frame) && !p.clearFirst
  {
    match Strategy(Title(t), input, ex, params)
    case Unsupported => Respond(UnsupportedMessage(t), 422)
    case EarlyReply(m) => Respond(m, 200)
    case Threw(e) => Fail(e)
    case Merged(g) =>
      MaintainColumnOrderNeverRaises(params, g, ex.columns);
      Write(PostProcess(params, g, ex.columns).value, false, ResizeFlag(params), t + " successful")
  }

  /** Only `Type` itself, or a key lookup of the two keyed strategies, can make the plan raise. */
  lemma PlanFailures(params: Items, input: Frame, existing: Option<Frame>, guard: KeyGuard)
    requires Valid(input) && (existing.Some? ==> Valid(existing.value))
    requires Plan(params, input, existing, guard).Fail?
    ensures Get(params, "Type").None? || !Get(params, "Type").value.Str?
            || (existing.Some? && Title(Get(params, "Type").value.s) in KeyedTypes)
  {
  }

  /**
   * An overwrite, or a write to a new tab, clears the worksheet and writes
   * the input table, without its empty rows when so asked.
   */
  lemma PlanOverwrite(params: Items, input: Frame, existing: Option<Frame>, guard: KeyGuard)
    requires Valid(input) && (existing.Some? ==> Valid(existing.value))
    requires Get(params, "Type").Some? && Get(params, "Type").value.Str?
    requires Title(Get(params, "Type").value.s) == "Overwrite" || existing.None?
    ensures var p := Plan(params, input, existing, guard);
      p.Write? && p.clearFirst && p.frame == OverwriteFrame(input, params) && p.resize == ResizeFlag(params)
  {
  }

  /** Input columns outside the existing tab are refused before any strategy runs. */
  lemma PlanNotSubset(params: Items, input: Frame, existing: Frame, guard: KeyGuard)
    requires Valid(input) && Valid(existing)
    requires Get(params, "Type").Some? && Get(params, "Type").value.Str?
    requires Title(Get(params, "Type").value.s) != "Overwrite"
    requires !Subset(input.columns, existing.columns)
    ensures Plan(params, input, Some(existing), guard) == Respond(NotSubsetMessage(input.columns, existing.columns), 422)
  {
  }

  /** Without drops, a merge that kept the existing columns is written as it is. */
  lemma PostProcessNoDrops(params: Items, g: Frame, order: seq<string>)
    requires Valid(g) && g.columns == order
    requires !Given(params, "Drop_Empty_Rows") && !Given(params, "Drop_Empty_Columns")
    ensures PostProcess(params, g, order) == Ok(g)
  {
    if Given(params, "Maintain_Column_Order") {
      SelectOwnColumns(g);
    }
  }

  /**
   * Appending everything without clean-ups, for any spelling of `Type` that
   * titles to `Append_All`, writes the existing rows then the input rows laid
   * out on the existing columns, and reports the spelling as given.
   */
  lemma PlanAppendAll(params: Items, t: string, input: Frame, existing: Frame, guard: KeyGuard)
    requires Valid(input) && Valid(existing)
    requires Get(params, "Type") == Some(Str(t)) && Title(t) == "Append_All"
    requires Subset(input.columns, existing.columns)
    requires !Given(params, "Drop_Empty_Rows") && !Given(params, "Drop_Empty_Columns")
    ensures var p := Plan(params, input, Some(existing), guard);
      && p.Write? && !p.clearFirst && p.message == t + " successful"
      && p.frame.columns == existing.columns
      && p.frame.rows == existing.rows + Conform(input, existing.columns)
  {
    KeyedTypesTitled();
    assert GuardedType(t, guard) !in KeyedTypes;
    AppendAllSpec(input, existing);
    var g := AppendAll(input, existing);
    assert Strategy(Title(t), input, existing, params) == Merged(g);
    PostProcessNoDrops(params, g, existing.columns);
    assert PlanStrategy(t, params, input, existing) == Write(g, false, ResizeFlag(params), t + " successful");
  }

  /** A type that titles to none of the strategies is refused with 422. */
  lemma PlanUnsupported(params: Items, input: Frame, existing: Frame, guard: KeyGuard)
    requires Valid(input) && Valid(existing)
    requires Get(params, "Type").Some? && Get(params, "Type").value.Str?
    requires var t := Title(Get(params, "Type").value.s);
      t != "Overwrite" && t !in ["Append_All"] + KeyedTypes
    requires Subset(input.columns, existing.columns)
    ensures Plan(params, input, Some(existing), guard)
            == Respond(UnsupportedMessage(Get(params, "Type").value.s), 422)
  {
    KeyedTypesTitled();
    var t := Get(params, "Type").value.s;
    assert t !in KeyedTypes && Title(t) !in KeyedTypes;
  }

  /** A non-overwrite of an existing tab that passes both guards reaches the strategy. */
  lemma PlanReachesStrategy(params: Items, t: string, input: Frame, existing: Frame, guard: KeyGuard)
    requires Valid(input) && Valid(existing)
    requires Get(params, "Type") == Some(Str(t)) && Title(t) != "Overwrite"
    requires Subset(input.columns, existing.columns) && "Primary_Key" in Keys(params)
    ensures Plan(params, input, Some(existing), guard) == PlanStrategy(t, params, input, existing)
  {
  }

  /** A merged table is written, after the clean-ups, without clearing the worksheet. */
  lemma PlanStrategyMerged(t: string, params: Items, input: Frame, ex: Frame)
    requires Valid(input) && Valid(ex)
    requires Strategy(Title(t), input, ex, params).Merged?
    ensures var p := PlanStrategy(t, params, input, ex);
      && p.Write? && !p.clearFirst && p.message == t + " successful"
      && Ok(p.frame) == PostProcess(params, Strategy(Title(t), input, ex, params).frame, ex.columns)
  {
    var g := Strategy(Title(t), input, ex, params).frame;
    MaintainColumnOrderNeverRaises(params, g, ex.columns);
  }

  /**
   * With a Primary_Key naming a column, `Append_Uniques` answers 200 with
   * the no-unique-rows message exactly when every input key already
   * exists; otherwise it writes, without clearing, the existing table
   * followed by the net-new input rows, after the clean-ups. A key naming
   * no column raises the KeyError of its lookup.
   */
  lemma PlanAppendUniques(params: Items, t: string, input: Frame, existing: Frame, guard: KeyGuard, key: Value)
    requires Valid(input) && Valid(existing)
    requires Get(params, "Type") == Some(Str(t)) && Title(t) == "Append_Uniques"
    requires Subset(input.columns, existing.columns)
    requires Get(params, "Primary_Key") == Some(key)
    ensures var p := Plan(params, input, Some(existing), guard);
      !(key.Str? && key.s in input.columns) ==> p == Fail(KeyError(PyStr(key)))
    ensures key.Str? && key.s in input.columns ==>
      var p := Plan(params, input, Some(existing), guard);
      var ki := IndexOf(input.columns, key.s);
      var ke := IndexOf(existing.columns, key.s);
      && Wide(input.rows, ki) && Wide(existing.rows, ke)
      && ((forall i :: 0 <= i < |input.rows| ==> input.rows[i][ki] in KeyColumn(existing.rows, ke))
          <==> p == Respond(NoUniqueRowsMessage, 200))
      && (p != Respond(NoUniqueRowsMessage, 200) ==>
            var net := UniqueRowsToAdd(input.rows, ki, KeyColumn(existing.rows, ke));
            && p.Write? && !p.clearFirst && p.message == t + " successful"
            && Ok(p.frame) == PostProcess(params, Concat(existing, Frame(input.columns, net)), existing.columns))
  {
    PlanReachesStrategy(params, t, input, existing, guard);
    var a := AppendUniques(input, existing, params);
    if key.Str? && key.s in input.columns {
      var ki := IndexOf(input.columns, key.s);
      var ke := IndexOf(existing.columns, key.s);
      assert KeyIndex(input, key) == Ok(ki) && KeyIndex(existing, key) == Ok(ke);
      assert a.Ok?;
      if a.value.Added? {
        assert Strategy(Title(t), input, existing, params) == Merged(a.value.frame);
        PlanStrategyMerged(t, params, input, existing);
      }
    } else {
      assert KeyIndex(input, key).Err?;
      assert a == Err(KeyError(PyStr(key)));
    }
  }

  /**
   * With a Primary_Key naming a column, `Combine_Uniques` writes, without
   * clearing, the deduplicated concatenation of input and existing rows,
   * after the clean-ups; a key naming no column raises the KeyError of its
   * lookup.
   */
  lemma PlanCombineUniques(params: Items, t: string, input: Frame, existing: Frame, guard: KeyGuard, key: Value)
    requires Valid(input) && Valid(existing)
    requires Get(params, "Type") == Some(Str(t)) && Title(t) == "Combine_Uniques"
    requires Subset(input.columns, existing.columns)
    requires Get(params, "Primary_Key") == Some(key)
    ensures var p := Plan(params, input, Some(existing), guard);
      !(key.Str? && key.s in existing.columns) ==> p == Fail(KeyError(PyStr(key)))
    ensures key.Str? && key.s in existing.columns ==>
      var p := Plan(params, input, Some(existing), guard);
      && CombineAndDeduplicate(input, existing, params).Ok?
      && p.Write? && !p.clearFirst && p.message == t + " successful"
      && Ok(p.frame) == PostProcess(params, CombineAndDeduplicate(input, existing, params).value, existing.columns)
  {
    PlanReachesStrategy(params, t, input, existing, guard);
    var c := CombineAndDeduplicate(input, existing, params);
    var m := Concat(input, existing);
    assert key.Str? && key.s in existing.columns <==> KeyIndex(m, key).Ok?;
    if c.Ok? {
      assert Strategy(Title(t), input, existing, params) == Merged(c.value);
      PlanStrategyMerged(t, params, input, existing);
    } else {
      assert c == DeduplicateDf(m, key);
    }
  }

  /**
   * As written, the guard catches a keyed type only in its exact spelling:
   * without a Primary_Key, `Append_Uniques` or `Combine_Uniques` gets the 422
   * reply, while any other spelling that titles to one of them reaches the
   * strategy, which raises a KeyError.
   */
  lemma PrimaryKeyGuardRaw(params: Items, t: string, input: Frame, existing: Frame)
    requires Valid(input) && Valid(existing)
    requires Get(params, "Type") == Some(Str(t)) && Title(t) in KeyedTypes
    requires "Primary_Key" !in Keys(params)
    requires Subset(input.columns, existing.columns)
    ensures t in KeyedTypes ==> Plan(params, input, Some(existing), RawType) == Respond(NeedKeyMessage(t), 422)
    ensures t !in KeyedTypes ==> Plan(params, input, Some(existing), RawType) == Fail(KeyError("Primary_Key"))
  {
    assert Get(params, "Primary_Key").None?;
    if t !in KeyedTypes {
      assert PlanOnExisting(t, params, input, existing, RawType) == PlanStrategy(t, params, input, existing);
    }
  }

  /** The keyed type names are already titled. */
  lemma KeyedTypesTitled()
    ensures forall k :: k in KeyedTypes ==> Title(k) == k
  {
    assert Title("Append_Uniques") == "Append_Uniques";
    assert Title("Combine_Uniques") == "Combine_Uniques";
  }

  lemma TitleLowerAppendUniques()
    ensures Title("append_uniques") == "Append_Uniques"
  {
  }

  /**
   * Comparing the titled `Type`, as dispatch does, a request without a
   * Primary_Key never raises once `Type` is a string: the keyed types get
   * the 422 reply instead.
   */
  lemma PrimaryKeyGuardCorrected(params: Items, input: Frame, existing: Frame)
    requires Valid(input) && Valid(existing)
    requires "Primary_Key" !in Keys(params)
    requires Get(params, "Type").Some? && Get(params, "Type").value.Str?
    ensures !Plan(params, input, Some(existing), TitledType).Fail?
    ensures var t := Get(params, "Type").value.s;
      Title(t) != "Overwrite" && Title(t) in KeyedTypes && Subset(input.columns, existing.columns) ==>
      Plan(params, input, Some(existing), TitledType) == Respond(NeedKeyMessage(t), 422)
  {
  }

  /** `RangeIndex(n)`: the index values of a table's rows; the writer does not write them. */
  function RangeIndex(n: nat): (ix: seq<Value>)
    ensures |ix| == n
  {
    seq(n, i => Int(i))
  }

  /** The worksheet operations `set_with_dataframe(tab, frame, resize=resize)` performs. */
  function WriteOps(frame: Frame, resize: bool): seq<SheetOp>
    requires Rectangular(frame)
  {
    var u := GridUpdates(TextGrid(VirtualGrid(frame, RangeIndex(|frame.rows|), Null, false, true), true), 1, 1);
    (if resize then [Resize(Height(frame, true), Width(frame, false))] else []) + (if u == [] then [] else [UpdateCells(u)])
  }

  /** The response and the worksheet operations for a normalised event. */
  function Dispatch(std: Items, overlap: seq<string>, input: Frame, existing: Option<Frame>): (Outcome, seq<SheetOp>)
    requires Valid(input) && (existing.Some? ==> Valid(existing.value))
  {
    Decide(ValidateParams(std, RequiredParams, OptionalParams, overlap), input, existing)
  }

  /** The response and the worksheet operations once `validate_params` has returned `v`. */
  function Decide(v: (Items, Missing), input: Frame, existing: Option<Frame>): (Outcome, seq<SheetOp>)
    requires Valid(input) && (existing.Some? ==> Valid(existing.value))
  {
    var (params, missing) := v;
    if MissingTruthy(missing) then (Reply(MissingMessage(missing.names), 422), [])
    else
      match Plan(params, input, existing, RawType)
      case Respond(m, s) => (Reply(m, s), [])
      case Fail(e) => (Raised(e), [])
      case Write(f, clear, resize, m) => (Reply(m, 200), (if clear then [Clear] else []) + WriteOps(f, resize))
  }

  /**
   * The tab is cleared, resized or updated only by a request that ends with status 200,
   * and it is cleared first only for an overwrite or a new tab.
   */
  lemma DispatchWritesOnSuccess(std: Items, overlap: seq<string>, input: Frame, existing: Option<Frame>)
    requires Valid(input) && (existing.Some? ==> Valid(existing.value))
    ensures var (out, ops) := Dispatch(std, overlap, input, existing);
      ops != [] ==> out.Returned? && out.response.statusCode == Int(200)
    ensures var (out, ops) := Dispatch(std, overlap, input, existing);
      ops != [] && ops[0] == Clear ==>
        var params := ValidateParams(std, RequiredParams, OptionalParams, overlap).0;
        Title(Get(params, "Type").value.s) == "Overwrite" || existing.None?
  {
  }

  /** A request that lacks a required parameter gets the 422 reply naming all missing ones, and nothing is written. */
  lemma DispatchMissing(std: Items, order: seq<string> -> seq<string>, input: Frame, existing: Option<Frame>)
    requires Valid(input) && (existing.Some? ==> Valid(existing.value))
    requires multiset(order(PresentNames(RequiredParams, Keys(std)))) == multiset(PresentNames(RequiredParams, Keys(std)))
    requires !AllPresent(RequiredParams, Keys(std))
    ensures Dispatch(std, order(PresentNames(RequiredParams, Keys(std))), input, existing)
            == (Reply(MissingMessage(MissingNames(RequiredParams, Keys(std))), 422), [])
  {
    ValidateParamsMissing(std, RequiredParams, OptionalParams, order(PresentNames(RequiredParams, Keys(std))));
  }

  /**
   * `lambda_handler(event, context)`: normalise and validate the event, then
   * follow the plan, performing its worksheet operations. `order` stands for
   * the iteration order of the set of present required names.
   */
  method LambdaHandler(event: PyDict, order: seq<string> -> seq<string>, input: Frame, existing: Option<Frame>)
    returns (out: Outcome, ops: seq<SheetOp>)
    requires event.Valid() && Valid(input) && (existing.Some? ==> Valid(existing.value))
    modifies event
    ensures event.Valid()
    ensures MergedQuery(old(event.items)).Err? ==>
      event.items == old(event.items) && out == Raised(MergedQuery(old(event.items)).error) && ops == []
    ensures MergedQuery(old(event.items)).Ok? ==>
      var std := NormalizeItems(MergedQuery(old(event.items)).value);
      event.items == MergedQuery(old(event.items)).value
      && (out, ops) == Dispatch(std, order(PresentNames(RequiredParams, Keys(std))), input, existing)
  {
    var v := ValidateEvent(event, RequiredParams, OptionalParams, order);
    if v.Err? {
      return Raised(v.error), [];
    }
    out, ops := Perform(v.value, input, existing);
  }

  /** The part of `lambda_handler` after `validate_params`, performing the worksheet operations of the plan. */
  method Perform(v: (Items, Missing), input: Frame, existing: Option<Frame>) returns (out: Outcome, ops: seq<SheetOp>)
    requires Valid(input) && (existing.Some? ==> Valid(existing.value))
    ensures (out, ops) == Decide(v, input, existing)
  {
    var (params, missing) := v;
    if MissingTruthy(missing) {
      return Reply(MissingMessage(missing.names), 422), [];
    }
    var plan := Plan(params, input, existing, RawType);
    match plan
    case Respond(m, s) =>
      out, ops := Reply(m, s), [];
    case Fail(e) =>
      out, ops := Raised(e), [];
    case Write(f, clear, resize, m) =>
      var written := SetWithDataframe(f, RangeIndex(|f.rows|), Null, resize := resize);
      ops := (if clear then [Clear] else []) + written;
      out := Reply(m, 200);
  }
}
