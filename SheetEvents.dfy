/**
 * `standardize_event` and `validate_params` as the sheet writer and the S3
 * sync handler define them: query parameters are merged into the event in
 * place, then every key is titled, stripped and has its spaces replaced by
 * underscores, and the string "false" becomes `False`.
 */
module SheetEvents {
  import opened Basics
  import opened PyStrings
  import opened PyValues
  import opened PyDicts
  import opened Lambda

  /** `k.title().strip().replace(" ", "_")`. */
  function NormalizeKey(k: string): string {
    ReplaceChar(Strip(Title(k)), ' ', '_')
  }

  /** `Strip` keeps a slice whose left neighbour, if any, is whitespace. */
  lemma StripSlice(s: string) returns (i: nat, j: nat)
    ensures i <= j <= |s| && Strip(s) == s[i..j]
    ensures i > 0 ==> IsSpace(s[i - 1])
  {
    i := LeadingSpaces(s);
    var l := s[i..];
    j := i + TrailingStart(l);
    assert l[..TrailingStart(l)] == s[i..j];
  }

  /** A normalised key is already titled. */
  lemma NormalizeKeyTitled(k: string)
    ensures Title(NormalizeKey(k)) == NormalizeKey(k)
  {
    var t := Title(k);
    var i, j := StripSlice(t);
    TitledSliceStable(k, i, j);
    TitleReplaceUncased(t[i..j], false, ' ', '_');
  }

  /**
   * A normalised key has no space, no surrounding whitespace, is already
   * titled, and normalising it again changes nothing.
   */
  lemma {:induction false} NormalizeKeySpec(k: string)
    ensures var r := NormalizeKey(k);
      && ' ' !in r
      && (r != [] ==> !IsSpace(r[0]) && !IsSpace(r[|r| - 1]))
      && Title(r) == r
      && NormalizeKey(r) == r
  {
    NormalizeKeyEnds(k);
    NormalizeKeyTitled(k);
    NormalizeKeyIdempotent(k);
  }

  /** A normalised key neither starts nor ends with whitespace. */
  lemma NormalizeKeyEnds(k: string)
    ensures var r := NormalizeKey(k);
      r != [] ==> !IsSpace(r[0]) && !IsSpace(r[|r| - 1])
  {
    var s := Strip(Title(k));
    var r := ReplaceChar(s, ' ', '_');
    if r != [] {
      assert r[0] == s[0] && r[|r| - 1] == s[|s| - 1];
    }
  }

  /** Normalising a normalised key changes nothing. */
  lemma NormalizeKeyIdempotent(k: string)
    ensures NormalizeKey(NormalizeKey(k)) == NormalizeKey(k)
  {
    var r := NormalizeKey(k);
    NormalizeKeyEnds(k);
    NormalizeKeyTitled(k);
    StripUnchanged(r);
    assert Strip(Title(r)) == r;
    assert ReplaceChar(r, ' ', '_') == r;
  }

  /** `False if v == "false" else v`. */
  function Coerce(v: Value): (c: Value)
    ensures v == Str("false") ==> c == Bool(false)
    ensures v != Str("false") ==> c == v
    ensures c != Str("false")
  {
    if v == Str("false") then Bool(false) else v
  }

  /** The pairs of the dict comprehension, in the order of the event. */
  function NormalizedPairs(items: Items): (p: Items)
    ensures |p| == |items|
    ensures forall i :: 0 <= i < |items| ==> p[i] == (NormalizeKey(items[i].0), Coerce(items[i].1))
  {
    seq(|items|, i requires 0 <= i < |items| => (NormalizeKey(items[i].0), Coerce(items[i].1)))
  }

  /** The dict comprehension that ends `standardize_event`. */
  function NormalizeItems(items: Items): Items {
    FromPairs(NormalizedPairs(items))
  }

  /** The keys of the normalised event are the normalised keys of the event. */
  lemma NormalizeItemsKeys(items: Items, k: string)
    ensures k in Keys(NormalizeItems(items)) <==> k in Keys(NormalizedPairs(items))
  {
    GetUpdated([], NormalizedPairs(items), k);
  }

  /**
   * The normalised event is a dict whose keys are exactly the normalised
   * keys of the event, each of them already normal.
   */
  lemma NormalizeItemsSpec(items: Items)
    ensures UniqueKeys(NormalizeItems(items))
    ensures forall p :: p in items ==> NormalizeKey(p.0) in Keys(NormalizeItems(items))
    ensures forall k :: k in Keys(NormalizeItems(items)) ==>
      k == NormalizeKey(k) && exists p :: p in items && NormalizeKey(p.0) == k
  {
    var pairs := NormalizedPairs(items);
    UpdatedKeepsUnique([], pairs);
    forall p | p in items
      ensures NormalizeKey(p.0) in Keys(NormalizeItems(items))
    {
      var i :| 0 <= i < |items| && items[i] == p;
      assert pairs[i].0 == NormalizeKey(p.0);
      NormalizeItemsKeys(items, NormalizeKey(p.0));
    }
    forall k | k in Keys(NormalizeItems(items))
      ensures k == NormalizeKey(k) && exists p :: p in items && NormalizeKey(p.0) == k
    {
      NormalizeItemsKeys(items, k);
      var i :| 0 <= i < |pairs| && pairs[i].0 == k;
      NormalizeKeySpec(items[i].0);
      assert items[i] in items;
    }
  }

  /** Every entry of the normalised event is a normalised pair of the event, so no value is the string "false". */
  lemma NormalizeItemsValue(items: Items, e: (string, Value))
    requires e in NormalizeItems(items)
    ensures e in NormalizedPairs(items)
    ensures e.1 != Str("false")
  {
    var pairs := NormalizedPairs(items);
    var r := NormalizeItems(items);
    UpdatedKeepsUnique([], pairs);
    var t :| 0 <= t < |r| && r[t] == e;
    GetAt(r, t);
    GetUpdated([], pairs, e.0);
  }

  /** When no other key of the event normalises to the same name, the pair survives as it is. */
  lemma NormalizeItemsGet(items: Items, i: nat)
    requires i < |items|
    requires forall j :: 0 <= j < |items| && j != i ==> NormalizeKey(items[j].0) != NormalizeKey(items[i].0)
    ensures Get(NormalizeItems(items), NormalizeKey(items[i].0)) == Some(Coerce(items[i].1))
  {
    var pairs := NormalizedPairs(items);
    LastValueSole(pairs, i);
    GetUpdated([], pairs, pairs[i].0);
  }

  /** `event.update(v)`: a dict's entries are assigned in order; anything else cannot update a dict. */
  function UpdateWith(items: Items, v: Value): (r: Result<Items>)
    ensures r.Ok? <==> v.Dict?
  {
    if v.Dict? then Ok(Updated(items, v.entries)) else Err(TypeError("dict.update() needs a mapping"))
  }

  /** The value `standardize_event` updates the event with: `queryStringParameters`, else `query`. */
  function QueryValue(items: Items): (q: Option<Value>)
    ensures q.None? <==> "queryStringParameters" !in Keys(items) && "query" !in Keys(items)
    ensures "queryStringParameters" in Keys(items) ==> q == Get(items, "queryStringParameters")
    ensures "queryStringParameters" !in Keys(items) ==> q == Get(items, "query")
  {
    match Get(items, "queryStringParameters")
    case Some(q) => Some(q)
    case None => Get(items, "query")
  }

  /** The event after the query-parameter merge of `standardize_event`. */
  function MergedQuery(items: Items): Result<Items> {
    match QueryValue(items)
    case Some(q) => UpdateWith(items, q)
    case None => Ok(items)
  }

  /**
   * A merge fails only on a query value that is not a dict; otherwise its
   * parameters override the event's own entries and every other entry keeps
   * its value. `query` is consulted only when there is no
   * `queryStringParameters` key at all.
   */
  lemma MergedQuerySpec(items: Items, k: string)
    ensures QueryValue(items).None? ==> MergedQuery(items) == Ok(items)
    ensures "queryStringParameters" in Keys(items) ==> QueryValue(items) == Get(items, "queryStringParameters")
    ensures "queryStringParameters" !in Keys(items) ==> QueryValue(items) == Get(items, "query")
    ensures MergedQuery(items).Err? <==> QueryValue(items).Some? && !QueryValue(items).value.Dict?
    ensures MergedQuery(items).Ok? && QueryValue(items).Some? ==>
      var q := QueryValue(items).value.entries;
      Get(MergedQuery(items).value, k) == if k in Keys(q) then LastValue(q, k) else Get(items, k)
  {
    if MergedQuery(items).Ok? && QueryValue(items).Some? {
      GetUpdated(items, QueryValue(items).value.entries, k);
    }
  }

  /**
   * `standardize_event(event)`: merges the query parameters into `event` in
   * place and returns the normalised copy, or raises what `dict.update`
   * raises, leaving `event` as it was.
   */
  method StandardizeEvent(event: PyDict) returns (r: Result<Items>)
    requires event.Valid()
    modifies event
    ensures event.Valid()
    ensures MergedQuery(old(event.items)).Ok? ==>
      event.items == MergedQuery(old(event.items)).value && r == Ok(NormalizeItems(event.items))
    ensures MergedQuery(old(event.items)).Err? ==>
      event.items == old(event.items) && r == Err(MergedQuery(old(event.items)).error)
  {
    var q := QueryValue(event.items);
    if q.Some? {
      if !q.value.Dict? {
        return Err(TypeError("dict.update() needs a mapping"));
      }
      event.Update(q.value.entries);
    }
    r := Ok(NormalizeItems(event.items));
  }

  /**
   * `validate_params(event, required, optional_params=optional)`. The order
   * in which `list(set(...))` yields the present required names depends on
   * string hashing; `order` stands for it.
   */
  method ValidateEvent(event: PyDict, required: seq<string>, optional: seq<string>, order: seq<string> -> seq<string>)
    returns (r: Result<(Items, Missing)>)
    requires event.Valid()
    modifies event
    ensures event.Valid()
    ensures MergedQuery(old(event.items)).Ok? ==>
      var std := NormalizeItems(event.items);
      event.items == MergedQuery(old(event.items)).value
      && r == Ok(ValidateParams(std, required, optional, order(PresentNames(required, Keys(std)))))
    ensures MergedQuery(old(event.items)).Err? ==>
      event.items == old(event.items) && r == Err(MergedQuery(old(event.items)).error)
  {
    var std := StandardizeEvent(event);
    if std.Err? {
      return Err(std.error);
    }
    var overlap := order(PresentNames(required, Keys(std.value)));
    r := Ok(ValidateParams(std.value, required, optional, overlap));
  }
}
