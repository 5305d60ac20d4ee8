/**
 * `standardize_event` and `validate_params` of the shared utility module,
 * which the read handler uses. A POST body `a=1&b=2` is parsed and merged
 * into a copy of the event; otherwise a non-empty query-parameter dict is
 * merged into the event in place. Key normalisation (`standardize_dict`) and
 * the overlap list (`get_list_overlap`) live in a module outside this model and
 * are parameters here.
 */
module UtilEvents {
  import opened Basics
  import opened PyStrings
  import opened PyValues
  import opened PyDicts
  import opened Lambda

  /** `{x[0]: x[1]}` for one `x = part.split("=")`: the text before the first `=` and the text after it up to the next. */
  function BodyPair(part: string): (r: Result<(string, Value)>)
    ensures r.Ok? <==> '=' in part
    ensures r.Err? ==> r.error.IndexError?
    ensures r.Ok? ==> var i := Find(part, '=');
      && r.value.0 == part[..i]
      && r.value.1.Str? && '=' !in r.value.1.s && StartsWith(part[i + 1..], r.value.1.s)
      && var rest := part[i + 1..];
         r.value.1.s == if '=' in rest then rest[..Find(rest, '=')] else rest
  {
    var x := Split(part, '=');
    assert '=' in part ==> x == [part[..Find(part, '=')]] + Split(part[Find(part, '=') + 1..], '=');
    if |x| < 2 then Err(IndexError("list index out of range")) else Ok((x[0], Str(x[1])))
  }

  /** Every part holds an `=`. */
  predicate AllPaired(parts: seq<string>) {
    forall k :: 0 <= k < |parts| ==> '=' in parts[k]
  }

  /** The pairs of all `&`-separated parts, or the IndexError of the first part without `=`. */
  function BodyPairs(parts: seq<string>): (r: Result<Items>)
    ensures r.Ok? <==> AllPaired(parts)
    ensures r.Ok? ==> |r.value| == |parts| && forall k :: 0 <= k < |parts| ==> r.value[k] == BodyPair(parts[k]).value
  {
    if parts == [] then Ok([])
    else
      match BodyPair(parts[0])
      case Err(e) => Err(e)
      case Ok(p) =>
        match BodyPairs(parts[1..])
        case Err(e) => Err(e)
        case Ok(ps) => Ok([p] + ps)
  }

  /** The dict comprehension over `event["body"].split("&")`. */
  function ParseBody(body: string): (r: Result<Items>)
    ensures r.Ok? <==> AllPaired(Split(body, '&'))
  {
    var ps := BodyPairs(Split(body, '&'));
    if ps.Err? then Err(ps.error) else Ok(FromPairs(ps.value))
  }

  /** A form body `k1=v1&k2=v2...`: the encoding a POST through API Gateway delivers. */
  function EncodeBody(pairs: seq<(string, string)>): string {
    Join(seq(|pairs|, i requires 0 <= i < |pairs| => pairs[i].0 + "=" + pairs[i].1), "&")
  }

  /** Keys and values free of `&` and `=`. */
  predicate PlainPairs(pairs: seq<(string, string)>) {
    forall i :: 0 <= i < |pairs| ==> '&' !in pairs[i].0 + pairs[i].1 && '=' !in pairs[i].0 + pairs[i].1
  }

  /** The string-valued dict a body of plain pairs stands for. */
  function BodyDict(pairs: seq<(string, string)>): Items {
    FromPairs(seq(|pairs|, i requires 0 <= i < |pairs| => (pairs[i].0, Str(pairs[i].1))))
  }

  /** Parsing an encoded body of plain pairs gives back those pairs, later ones winning. */
  lemma BodyRoundTrip(pairs: seq<(string, string)>)
    requires |pairs| >= 1 && PlainPairs(pairs)
    ensures ParseBody(EncodeBody(pairs)) == Ok(BodyDict(pairs))
  {
    var parts := seq(|pairs|, i requires 0 <= i < |pairs| => pairs[i].0 + "=" + pairs[i].1);
    forall i | 0 <= i < |pairs|
      ensures '&' !in parts[i]
      ensures BodyPair(parts[i]) == Ok((pairs[i].0, Str(pairs[i].1)))
    {
      assert '&' !in pairs[i].0 + pairs[i].1;
      assert '=' !in pairs[i].0 + pairs[i].1;
      assert '=' !in pairs[i].0 && '=' !in pairs[i].1;
      assert Join([pairs[i].0, pairs[i].1], "=") == parts[i];
      JoinSplit([pairs[i].0, pairs[i].1], '=');
    }
    JoinSplit(parts, '&');
    var ps := BodyPairs(parts).value;
    assert ps == seq(|pairs|, i requires 0 <= i < |pairs| => (pairs[i].0, Str(pairs[i].1)));
  }

  /** The dict `standardize_dict` receives: the event with the body, or else a query dict, merged in. */
  function MergedEvent(items: Items): Result<Items> {
    if Given(items, "body") then BodyMerged(items) else QueryMerged(items)
  }

  /** A copy of the event with the parsed body merged in. */
  function BodyMerged(items: Items): Result<Items> {
    var body := GetOr(items, "body", Null);
    if !body.Str? then Err(AttributeError("split"))
    else
      match ParseBody(body.s)
      case Err(e) => Err(e)
      case Ok(d) => Ok(Updated(items, d))
  }

  /** The event with `queryStringParameters`, or else `query`, merged in when it is non-empty. */
  function QueryMerged(items: Items): Result<Items> {
    if Given(items, "queryStringParameters") then
      var q := GetOr(items, "queryStringParameters", Null);
      if q.Dict? then Ok(Updated(items, q.entries)) else Err(TypeError("dict.update() needs a mapping"))
    else if Given(items, "query") then
      var q := GetOr(items, "query", Null);
      if q.Dict? then Ok(Updated(items, q.entries)) else Err(TypeError("dict.update() needs a mapping"))
    else Ok(items)
  }

  /** What the caller's event holds afterwards: only the query merges happen in place. */
  function EventAfter(items: Items): Items {
    if !Given(items, "body") && MergedEvent(items).Ok? then MergedEvent(items).value else items
  }

  /**
   * A body wins over query parameters and never touches the caller's event;
   * its parameters override the event's own. A query dict is used only when
   * the sources before it are absent or empty.
   */
  lemma MergedEventSpec(items: Items, k: string)
    ensures Given(items, "body") ==> EventAfter(items) == items
    ensures Given(items, "body") && MergedEvent(items).Ok? ==>
      var d := ParseBody(GetOr(items, "body", Null).s).value;
      Get(MergedEvent(items).value, k) == if k in Keys(d) then LastValue(d, k) else Get(items, k)
    ensures !Given(items, "body") && !Given(items, "queryStringParameters") && !Given(items, "query") ==>
      MergedEvent(items) == Ok(items) && EventAfter(items) == items
    ensures !Given(items, "body") && Given(items, "queryStringParameters") ==>
      var q := GetOr(items, "queryStringParameters", Null);
      && (q.Dict? ==> MergedEvent(items) == Ok(Updated(items, q.entries)))
      && (!q.Dict? ==> MergedEvent(items).Err? && MergedEvent(items).error.TypeError?)
    ensures !Given(items, "body") && !Given(items, "queryStringParameters") && Given(items, "query") ==>
      var q := GetOr(items, "query", Null);
      && (q.Dict? ==> MergedEvent(items) == Ok(Updated(items, q.entries)))
      && (!q.Dict? ==> MergedEvent(items).Err? && MergedEvent(items).error.TypeError?)
  {
    if Given(items, "body") && MergedEvent(items).Ok? {
      GetUpdated(items, ParseBody(GetOr(items, "body", Null).s).value, k);
    }
  }

  /**
   * Without a body, a query merge happens in the caller's event itself, and
   * the merged dict's parameters override the event's own entries.
   */
  lemma MergedQueryDictSpec(items: Items, k: string)
    requires !Given(items, "body")
    ensures EventAfter(items) == if MergedEvent(items).Ok? then MergedEvent(items).value else items
    ensures var q := GetOr(items, "queryStringParameters", Null);
      Given(items, "queryStringParameters") && q.Dict? ==>
      Get(MergedEvent(items).value, k) == if k in Keys(q.entries) then LastValue(q.entries, k) else Get(items, k)
    ensures var q := GetOr(items, "query", Null);
      !Given(items, "queryStringParameters") && Given(items, "query") && q.Dict? ==>
      Get(MergedEvent(items).value, k) == if k in Keys(q.entries) then LastValue(q.entries, k) else Get(items, k)
  {
    assert MergedEvent(items) == QueryMerged(items);
    var qsp := GetOr(items, "queryStringParameters", Null);
    var query := GetOr(items, "query", Null);
    if Given(items, "queryStringParameters") && qsp.Dict? {
      GetUpdated(items, qsp.entries, k);
    } else if !Given(items, "queryStringParameters") && Given(items, "query") && query.Dict? {
      GetUpdated(items, query.entries, k);
    }
  }


  /**
   * `standardize_event(event)` with `standardize_dict` as `standardize`: the
   * caller's event ends as `EventAfter` says, and the normalised merged event
   * comes back, or the exception parsing or merging raises.
   */
  method StandardizeEvent(event: PyDict, standardize: Items -> Items) returns (r: Result<Items>)
    requires event.Valid()
    modifies event
    ensures event.Valid()
    ensures event.items == EventAfter(old(event.items))
    ensures r == match MergedEvent(old(event.items))
                 case Ok(m) => Ok(standardize(m))
                 case Err(e) => Err(e)
  {
    if Given(event.items, "body") {
      var body := GetOr(event.items, "body", Null);
      if !body.Str? {
        return Err(AttributeError("split"));
      }
      var parsed := ParseBody(body.s);
      if parsed.Err? {
        return Err(parsed.error);
      }
      return Ok(standardize(Updated(event.items, parsed.value)));
    }
    var source := if Given(event.items, "queryStringParameters") then "queryStringParameters"
                  else if Given(event.items, "query") then "query"
                  else "";
    if source != "" {
      var q := GetOr(event.items, source, Null);
      if !q.Dict? {
        return Err(TypeError("dict.update() needs a mapping"));
      }
      event.Update(q.entries);
    }
    r := Ok(standardize(event.items));
  }

  /** `validate_params` of the shared module, with `get_list_overlap` as `listOverlap`. */
  method ValidateEvent(event: PyDict, required: seq<string>, optional: seq<string>,
                       standardize: Items -> Items, listOverlap: (Items, seq<string>) -> seq<string>)
    returns (r: Result<(Items, Missing)>)
    requires event.Valid()
    modifies event
    ensures event.Valid()
    ensures event.items == EventAfter(old(event.items))
    ensures r == match MergedEvent(old(event.items))
                 case Ok(m) =>
                   var std := standardize(m);
                   Ok(ValidateParams(std, required, optional, listOverlap(std, required)))
                 case Err(e) => Err(e)
  {
    var std := StandardizeEvent(event, standardize);
    if std.Err? {
      return Err(std.error);
    }
    r := Ok(ValidateParams(std.value, required, optional, listOverlap(std.value, required)));
  }
}
