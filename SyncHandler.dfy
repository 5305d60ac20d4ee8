/**
 * The S3-to-Sheets sync handler: it validates a request with the same
 * parameters as the sheet writer and answers without writing anything.
 */
module SyncHandler {
  import opened Basics
  import opened PyValues
  import opened PyDicts
  import opened Lambda
  import opened SheetEvents

  const SyncRequired: seq<string> := ["Data", "Gsheet", "Tab", "Type"]
  const SyncOptional: seq<string> := ["Resize", "Drop_Empty_Rows", "Drop_Empty_Columns", "Primary_Key", "Maintain_Column_Order"]

  /** The reply once `validate_params` has returned `v`. */
  function SyncReply(v: (Items, Missing)): Outcome {
    var (params, missing) := v;
    if MissingTruthy(missing) then Reply(MissingMessage(missing.names), 422)
    else
      match Get(params, "Type")
      case None => Raised(KeyError("Type"))
      case Some(t) => Reply(PyStr(t) + " successful", 200)
  }

  /**
   * Whatever order the set of present required names comes in, the handler
   * never raises once the event is merged: it answers 422 listing exactly the
   * absent required names, or 200 naming the `Type`.
   */
  lemma SyncReplySpec(std: Items, overlap: seq<string>)
    requires multiset(overlap) == multiset(PresentNames(SyncRequired, Keys(std)))
    ensures var out := SyncReply(ValidateParams(std, SyncRequired, SyncOptional, overlap));
      && out.Returned?
      && (out.response.statusCode == Int(422) <==> !AllPresent(SyncRequired, Keys(std)))
      && (out.response.statusCode == Int(200) <==> AllPresent(SyncRequired, Keys(std)))
      && (out.response.statusCode == Int(200) ==>
            Data(out.response) == Some(Str(PyStr(GetOr(std, "Type", Null)) + " successful")))
      && (out.response.statusCode == Int(422) ==>
            Data(out.response) == Some(Str(MissingMessage(MissingNames(SyncRequired, Keys(std))))))
  {
    ValidateParamsMissing(std, SyncRequired, SyncOptional, overlap);
    var (params, missing) := ValidateParams(std, SyncRequired, SyncOptional, overlap);
    var out := SyncReply((params, missing));
    if MissingTruthy(missing) {
      assert out == Reply(MissingMessage(missing.names), 422);
      assert out.response.statusCode == Int(422);
      assert !AllPresent(SyncRequired, Keys(std));
    } else {
      assert "Type" in SyncRequired && "Type" in Keys(std);
      assert Get(params, "Type") == Get(std, "Type");
      assert out == Reply(PyStr(GetOr(std, "Type", Null)) + " successful", 200);
      assert out.response.statusCode == Int(200);
      assert AllPresent(SyncRequired, Keys(std));
    }
  }

  /**
   * `lambda_handler(event, context)`: the event is normalised (its query
   * parameters merged in place) and validated; `order` stands for the
   * iteration order of the set of present required names.
   */
  method LambdaHandler(event: PyDict, order: seq<string> -> seq<string>) returns (out: Outcome)
    requires event.Valid()
    modifies event
    ensures event.Valid()
    ensures MergedQuery(old(event.items)).Err? ==>
      event.items == old(event.items) && out == Raised(MergedQuery(old(event.items)).error)
    ensures MergedQuery(old(event.items)).Ok? ==>
      var std := NormalizeItems(MergedQuery(old(event.items)).value);
      event.items == MergedQuery(old(event.items)).value
      && out == SyncReply(ValidateParams(std, SyncRequired, SyncOptional, order(PresentNames(SyncRequired, Keys(std)))))
  {
    var v := ValidateEvent(event, SyncRequired, SyncOptional, order);
    if v.Err? {
      return Raised(v.error);
    }
    var (params, missing) := v.value;
    if MissingTruthy(missing) {
      return Reply(MissingMessage(missing.names), 422);
    }
    match Get(params, "Type")
    case None =>
      out := Raised(KeyError("Type"));
    case Some(t) =>
      out := Reply(PyStr(t) + " successful", 200);
  }
}
