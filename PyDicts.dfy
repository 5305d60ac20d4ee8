/**
 * Python dicts with string keys: an insertion-ordered list of entries with
 * distinct keys. Assigning an existing key replaces its value in place;
 * assigning a new key appends it.
 */
module PyDicts {
  import opened Basics
  import opened PyValues

  type Items = seq<(string, Value)>

  function Keys(d: Items): (ks: seq<string>)
    ensures |ks| == |d|
    ensures forall i :: 0 <= i < |d| ==> ks[i] == d[i].0
  {
    seq(|d|, i requires 0 <= i < |d| => d[i].0)
  }

  predicate UniqueKeys(d: Items) {
    forall i, j :: 0 <= i < j < |d| ==> d[i].0 != d[j].0
  }

  /** `d.get(k)`: the value stored under `k`, if any. */
  function Get(d: Items, k: string): (r: Option<Value>)
    ensures r.Some? <==> k in Keys(d)
  {
    if d == [] then None
    else if d[0].0 == k then Some(d[0].1)
    else (assert Keys(d[1..]) == Keys(d)[1..]; Get(d[1..], k))
  }

  /** `d.get(k, default)`. */
  function GetOr(d: Items, k: string, default: Value): Value {
    match Get(d, k)
    case Some(v) => v
    case None => default
  }

  /** Whether `d.get(k)` is truthy. */
  predicate Given(d: Items, k: string) {
    Truthy(GetOr(d, k, Null))
  }

  /** `d[k] = v`. */
  function Set(d: Items, k: string, v: Value): (r: Items)
    ensures k in Keys(r)
    ensures forall k' :: k' in Keys(r) <==> k' == k || k' in Keys(d)
  {
    if d == [] then
      assert Keys([(k, v)]) == [k];
      [(k, v)]
    else if d[0].0 == k then
      assert Keys([(k, v)] + d[1..]) == [k] + Keys(d)[1..];
      [(k, v)] + d[1..]
    else
      assert Keys(d[1..]) == Keys(d)[1..];
      var rest := Set(d[1..], k, v);
      assert Keys([d[0]] + rest) == [d[0].0] + Keys(rest);
      [d[0]] + rest
  }

  lemma {:induction false} GetSet(d: Items, k: string, v: Value, k': string)
    ensures Get(Set(d, k, v), k') == if k' == k then Some(v) else Get(d, k')
  {
    if d != [] && d[0].0 != k {
      GetSet(d[1..], k, v, k');
    }
  }

  lemma {:induction false} SetKeepsUnique(d: Items, k: string, v: Value)
    requires UniqueKeys(d)
    ensures UniqueKeys(Set(d, k, v))
  {
    if d != [] && d[0].0 != k {
      SetKeepsUnique(d[1..], k, v);
      var rest := Set(d[1..], k, v);
      assert d[0].0 !in Keys(d[1..]);
      assert d[0].0 !in Keys(rest);
      assert forall j :: 0 <= j < |rest| ==> rest[j].0 in Keys(rest);
    }
  }

  /** The value of the last entry with key `k` in a possibly repetitive list of pairs. */
  function LastValue(pairs: Items, k: string): (r: Option<Value>)
    ensures r.Some? <==> k in Keys(pairs)
    ensures r.Some? ==> (k, r.value) in pairs
    ensures r.Some? ==> r.value == pairs[LastIndex(Keys(pairs), k)].1
  {
    if pairs == [] then None
    else
      assert Keys(pairs[1..]) == Keys(pairs)[1..];
      match LastValue(pairs[1..], k)
      case Some(v) => Some(v)
      case None => if pairs[0].0 == k then Some(pairs[0].1) else None
  }

  /** A key that occurs once among the pairs takes the value beside it. */
  lemma {:induction false} LastValueSole(pairs: Items, i: nat)
    requires i < |pairs|
    requires forall j :: 0 <= j < |pairs| && j != i ==> pairs[j].0 != pairs[i].0
    ensures LastValue(pairs, pairs[i].0) == Some(pairs[i].1)
  {
    assert Keys(pairs[1..]) == Keys(pairs)[1..];
    if i > 0 {
      LastValueSole(pairs[1..], i - 1);
    } else {
      assert pairs[0].0 !in Keys(pairs[1..]);
    }
  }

  /** `d.update(pairs)`, or `{**d, **pairs}` on a copy: each pair assigned in order. */
  function Updated(d: Items, pairs: Items): Items
    decreases |pairs|
  {
    if pairs == [] then d else Updated(Set(d, pairs[0].0, pairs[0].1), pairs[1..])
  }

  /** A dict comprehension or `dict(pairs)`: later pairs win. */
  function FromPairs(pairs: Items): Items {
    Updated([], pairs)
  }

  /** After an update a key holds the value of its last pair, or else its old value. */
  lemma {:induction false} GetUpdated(d: Items, pairs: Items, k: string)
    ensures Get(Updated(d, pairs), k) == if k in Keys(pairs) then LastValue(pairs, k) else Get(d, k)
    decreases |pairs|
  {
    if pairs != [] {
      assert Keys(pairs[1..]) == Keys(pairs)[1..];
      GetUpdated(Set(d, pairs[0].0, pairs[0].1), pairs[1..], k);
      GetSet(d, pairs[0].0, pairs[0].1, k);
    }
  }

  lemma {:induction false} UpdatedKeepsUnique(d: Items, pairs: Items)
    requires UniqueKeys(d)
    ensures UniqueKeys(Updated(d, pairs))
    decreases |pairs|
  {
    if pairs != [] {
      SetKeepsUnique(d, pairs[0].0, pairs[0].1);
      UpdatedKeepsUnique(Set(d, pairs[0].0, pairs[0].1), pairs[1..]);
    }
  }

  /** In a dict every key is found with the value stored beside it. */
  lemma {:induction false} GetAt(d: Items, i: nat)
    requires UniqueKeys(d) && i < |d|
    ensures Get(d, d[i].0) == Some(d[i].1)
  {
    if i > 0 {
      GetAt(d[1..], i - 1);
    }
  }

  /** `{k: v for k, v in d.items() if k in allowed}`. */
  function Restrict(d: Items, allowed: seq<string>): (r: Items)
    ensures forall k :: k in Keys(r) ==> k in allowed
    ensures forall k :: Get(r, k) == if k in allowed then Get(d, k) else None
  {
    if d == [] then []
    else
      var rest := Restrict(d[1..], allowed);
      if d[0].0 in allowed then
        assert Keys([d[0]] + rest) == [d[0].0] + Keys(rest);
        [d[0]] + rest
      else rest
  }

  /** A Python dict object that code may change in place. */
  class PyDict {
    var items: Items

    ghost predicate Valid()
      reads this
    {
      UniqueKeys(items)
    }

    constructor (entries: Items)
      requires UniqueKeys(entries)
      ensures Valid() && items == entries
    {
      items := entries;
    }

    /** `self.update(pairs)`: assigns the pairs one after the other. */
    method Update(pairs: Items)
      requires Valid()
      modifies this
      ensures Valid()
      ensures items == Updated(old(items), pairs)
    {
      var i := 0;
      while i < |pairs|
        invariant 0 <= i <= |pairs|
        invariant UniqueKeys(items)
        invariant Updated(items, pairs[i..]) == Updated(old(items), pairs)
      {
        assert pairs[i..][0] == pairs[i] && pairs[i..][1..] == pairs[i + 1..];
        SetKeepsUnique(items, pairs[i].0, pairs[i].1);
        items := Set(items, pairs[i].0, pairs[i].1);
        i := i + 1;
      }
    }
  }
}
