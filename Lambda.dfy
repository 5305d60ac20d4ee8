/**
 * The request/response helpers every handler carries a copy of:
 * `package_response`, which wraps a message and a status code into the dict a
 * Lambda behind API Gateway returns, and `validate_params`, which keeps the
 * recognised parameters of a normalised event and lists the required ones
 * that are missing.
 */
module Lambda {
  import opened Basics
  import opened PyStrings
  import opened PyValues
  import opened PyDicts

  /** The dict `package_response` returns; the body is kept as the value `json.dumps` would encode. */
  datatype Response = Response(statusCode: Value, body: Value, contentType: string)

  /** How a handler invocation ends: with a response, or with an exception escaping. */
  datatype Outcome =
    | Returned(response: Response)
    | Raised(error: PyError)

  /** `package_response(message, status_code)`. */
  function PackageResponse(message: Value, statusCode: Value): (r: Response)
    ensures Truthy(statusCode) ==> r.statusCode == statusCode
    ensures !Truthy(statusCode) ==> r.statusCode == Str("200")
    ensures r.body == Dict([("data", message)])
    ensures r.contentType == "application/json"
  {
    Response(if Truthy(statusCode) then statusCode else Str("200"), Dict([("data", message)]), "application/json")
  }

  /** The message a response carries under `data`. */
  function Data(r: Response): Option<Value> {
    if r.body.Dict? then Get(r.body.entries, "data") else None
  }

  /**
   * A response always carries a truthy status and gives its message back
   * under `data`; packaging again with the status it chose changes nothing.
   */
  lemma PackageResponseSpec(message: Value, statusCode: Value)
    ensures Truthy(PackageResponse(message, statusCode).statusCode)
    ensures Data(PackageResponse(message, statusCode)) == Some(message)
    ensures PackageResponse(message, PackageResponse(message, statusCode).statusCode) == PackageResponse(message, statusCode)
  {
  }

  /** The status-and-message reply of a handler. */
  function Reply(message: string, status: int): (out: Outcome)
    ensures out.Returned?
    ensures status != 0 ==> out.response.statusCode == Int(status)
    ensures Data(out.response) == Some(Str(message))
  {
    PackageResponseSpec(Str(message), Int(status));
    Returned(PackageResponse(Str(message), Int(status)))
  }

  /** The second result of `validate_params`: `False`, or the list of missing names. */
  datatype Missing = NotMissing | MissingList(names: seq<string>)

  /** Whether `if missing_params:` takes its branch. */
  predicate MissingTruthy(m: Missing) {
    m.MissingList? && m.names != []
  }

  /** `[x for x in required_params if x not in event]`. */
  function MissingNames(required: seq<string>, present: seq<string>): (m: seq<string>)
    ensures |m| <= |required|
    ensures forall x :: x in m <==> x in required && x !in present
  {
    if required == [] then []
    else (if required[0] in present then [] else [required[0]]) + MissingNames(required[1..], present)
  }

  /** The positions of the required names absent from `present`, in increasing order. */
  function MissingPositions(required: seq<string>, present: seq<string>): (pos: seq<nat>)
    ensures forall t :: 0 <= t < |pos| ==> pos[t] < |required|
    ensures forall t, u :: 0 <= t < u < |pos| ==> pos[t] < pos[u]
  {
    if required == [] then []
    else
      var tail := MissingPositions(required[1..], present);
      (if required[0] in present then [] else [0]) + Shift(tail)
  }

  /** Every position moved one place on. */
  function Shift(pos: seq<nat>): (r: seq<nat>)
    ensures |r| == |pos| && forall t :: 0 <= t < |pos| ==> r[t] == pos[t] + 1
  {
    seq(|pos|, t requires 0 <= t < |pos| => pos[t] + 1)
  }

  /** The missing name at place `t` is the required name at position `t` of `MissingPositions`. */
  lemma {:induction false} MissingPositionsNames(required: seq<string>, present: seq<string>)
    ensures |MissingPositions(required, present)| == |MissingNames(required, present)|
    ensures forall t :: 0 <= t < |MissingPositions(required, present)| ==>
      required[MissingPositions(required, present)[t]] == MissingNames(required, present)[t]
  {
    if required != [] {
      var rest := required[1..];
      MissingPositionsNames(rest, present);
      var tail := MissingPositions(rest, present);
      var mt := MissingNames(rest, present);
      forall t | 0 <= t < |tail|
        ensures required[Shift(tail)[t]] == mt[t]
      {
        assert required[tail[t] + 1] == rest[tail[t]];
      }
    }
  }

  /** Every absent required name has its position in `MissingPositions`. */
  lemma {:induction false} MissingPositionsComplete(required: seq<string>, present: seq<string>, k: nat)
    requires k < |required| && required[k] !in present
    ensures k in MissingPositions(required, present)
  {
    if k > 0 {
      var rest := required[1..];
      assert rest[k - 1] == required[k];
      MissingPositionsComplete(rest, present, k - 1);
      var tail := MissingPositions(rest, present);
      var t :| 0 <= t < |tail| && tail[t] == k - 1;
      assert Shift(tail)[t] == k;
    }
  }

  /**
   * The missing list keeps the declared order: its names sit at increasing
   * positions of the required list, and every absent required name is among
   * those positions.
   */
  lemma MissingNamesInOrder(required: seq<string>, present: seq<string>)
    ensures var pos := MissingPositions(required, present);
      var m := MissingNames(required, present);
      && |pos| == |m|
      && (forall t :: 0 <= t < |pos| ==> pos[t] < |required| && required[pos[t]] == m[t])
      && (forall t, u :: 0 <= t < u < |pos| ==> pos[t] < pos[u])
      && (forall k :: 0 <= k < |required| && required[k] !in present ==> k in pos)
  {
    MissingPositionsNames(required, present);
    forall k | 0 <= k < |required| && required[k] !in present
      ensures k in MissingPositions(required, present)
    {
      MissingPositionsComplete(required, present, k);
    }
  }

  /** The required names that are present, in declared order. */
  function PresentNames(required: seq<string>, present: seq<string>): (p: seq<string>)
    ensures forall x :: x in p <==> x in required && x in present
  {
    if required == [] then []
    else (if required[0] in present then [required[0]] else []) + PresentNames(required[1..], present)
  }

  /**
   * `validate_params` on an already normalised event: the recognised
   * parameters, and `False` when the overlap list equals the required list, or
   * else the required names absent from the event. The overlap list is a
   * parameter: one copy builds it from a set, the other asks another module.
   */
  function ValidateParams(event: Items, required: seq<string>, optional: seq<string>, overlap: seq<string>)
    : (r: (Items, Missing))
    ensures forall k :: k in Keys(r.0) ==> k in required + optional
    ensures forall k :: Get(r.0, k) == if k in required + optional then Get(event, k) else None
    ensures overlap == required ==> r.1 == NotMissing
    ensures overlap != required ==> r.1.MissingList?
    ensures r.1.MissingList? ==> forall x :: x in r.1.names <==> x in required && x !in Keys(event)
    ensures r.1.MissingList? ==> r.1.names == MissingNames(required, Keys(event))
  {
    var params := Restrict(event, required + optional);
    if overlap != required then (params, MissingList(MissingNames(required, Keys(event))))
    else (params, NotMissing)
  }

  lemma {:induction false} PresentMissingCount(required: seq<string>, present: seq<string>)
    ensures |PresentNames(required, present)| + |MissingNames(required, present)| == |required|
    ensures MissingNames(required, present) == [] ==> PresentNames(required, present) == required
  {
    if required != [] {
      PresentMissingCount(required[1..], present);
    }
  }

  /** Every required name is a key of the event. */
  predicate AllPresent(required: seq<string>, present: seq<string>) {
    forall x :: x in required ==> x in present
  }

  /**
   * Whatever order the overlap list comes in, as long as it holds the
   * present required names, parameters are reported missing exactly when a
   * required name is absent, and then the list names all absent ones.
   */
  lemma ValidateParamsMissing(event: Items, required: seq<string>, optional: seq<string>, overlap: seq<string>)
    requires multiset(overlap) == multiset(PresentNames(required, Keys(event)))
    ensures MissingTruthy(ValidateParams(event, required, optional, overlap).1) <==> !AllPresent(required, Keys(event))
  {
    var m := MissingNames(required, Keys(event));
    PresentMissingCount(required, Keys(event));
    var r := ValidateParams(event, required, optional, overlap);
    if m != [] {
      assert m[0] in m;
      assert |overlap| == |multiset(overlap)| == |PresentNames(required, Keys(event))| < |required|;
      assert r.1 == MissingList(m);
    }
    if !AllPresent(required, Keys(event)) {
      var x :| x in required && x !in Keys(event);
      assert x in m;
    }
  }

  const MissingPrefix := "Missing required params "

  /** `f"Missing required params {missing_params}"`. */
  function MissingMessage(names: seq<string>): (msg: string)
    ensures StartsWith(msg, MissingPrefix)
    ensures msg == MissingPrefix + ("[" + Join(StrReprs(names), ", ") + "]")
  {
    var e := StrList(names).elems;
    assert seq(|e|, k requires 0 <= k < |e| => PyRepr(e[k])) == StrReprs(names);
    var text := MissingPrefix + PyRepr(StrList(names));
    assert text[..|MissingPrefix|] == MissingPrefix;
    text
  }

  /** The `repr` of each name, in order. */
  function StrReprs(names: seq<string>): (rs: seq<string>)
    ensures |rs| == |names|
    ensures forall k :: 0 <= k < |names| ==> rs[k] == StrRepr(names[k])
  {
    seq(|names|, k requires 0 <= k < |names| => StrRepr(names[k]))
  }
}
