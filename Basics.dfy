/** Option/Result wrappers and the Python exceptions the handlers can raise. */
module Basics {

  datatype Option<T> = None | Some(value: T)

  /** An exception that escapes a handler (the Lambda runtime then reports an error). */
  datatype PyError =
    | KeyError(key: string)          // a missing dict key or DataFrame column
    | AttributeError(detail: string) // a method called on a value of the wrong type
    | TypeError(detail: string)      // e.g. dict.update with a non-mapping
    | IndexError(detail: string)     // e.g. x[1] on a one-element list

  datatype Result<T> = Ok(value: T) | Err(error: PyError)

  /** The position of the last occurrence of `x` in `s`. */
  function LastIndex<T(==)>(s: seq<T>, x: T): (i: nat)
    requires x in s
    ensures i < |s| && s[i] == x
    ensures forall j :: i < j < |s| ==> s[j] != x
  {
    if x in s[1..] then 1 + LastIndex(s[1..], x) else 0
  }

  lemma AppendAssoc<T>(a: seq<T>, b: seq<T>, c: seq<T>)
    ensures (a + b) + c == a + (b + c)
  {
  }
}
