/**
 * The values that travel through the handlers: request parameters, JSON
 * request data and the cells of a table.
 */
module PyValues {
  import opened PyStrings

  datatype Value =
    | Null                          // None, or a missing (NaN) cell of a table
    | Bool(b: bool)
    | Int(i: int)
    | Float(repr: string)           // a float that is not NaN, kept as the text repr() gives it
    | Str(s: string)
    | List(elems: seq<Value>)
    | Dict(entries: seq<(string, Value)>)

  /** Python truthiness, as `if x:` and `dict.get(...)` tests use it. */
  predicate Truthy(v: Value) {
    match v
    case Null => false
    case Bool(b) => b
    case Int(i) => i != 0
    case Float(r) => r != "0.0" && r != "-0.0"
    case Str(s) => s != ""
    case List(e) => e != []
    case Dict(e) => e != []
  }

  /** The quote `repr` puts around a string: `"` only when that avoids escaping a `'`. */
  function QuoteFor(s: string): char {
    if '\'' in s && '"' !in s then '"' else '\''
  }

  function HexDigit(d: nat): char
    requires d < 16
  {
    "0123456789abcdef"[d]
  }

  /** The characters up to U+00FF that `str.isprintable` rejects: controls, U+007F to U+00A0, and U+00AD. */
  predicate Unprintable(c: char) {
    c < ' ' || ('\U{7F}' <= c <= '\U{A0}') || c == '\U{AD}'
  }

  function EscapeChar(c: char, q: char): string {
    if c == '\\' then "\\\\"
    else if c == q then ['\\', q]
    else if c == '\t' then "\\t"
    else if c == '\n' then "\\n"
    else if c == '\r' then "\\r"
    else if Unprintable(c) then "\\x" + [HexDigit(c as int / 16), HexDigit(c as int % 16)]
    else [c]
  }

  function Escape(s: string, q: char): string {
    if s == [] then "" else EscapeChar(s[0], q) + Escape(s[1..], q)
  }

  /** `repr(s)` for a string. */
  function StrRepr(s: string): string {
    var q := QuoteFor(s);
    [q] + Escape(s, q) + [q]
  }

  /** `repr(v)`. */
  function PyRepr(v: Value): string {
    match v
    case Null => "None"
    case Bool(b) => if b then "True" else "False"
    case Int(i) => IntToString(i)
    case Float(r) => r
    case Str(s) => StrRepr(s)
    case List(e) =>
      "[" + Join(seq(|e|, k requires 0 <= k < |e| => PyRepr(e[k])), ", ") + "]"
    case Dict(e) =>
      "{" + Join(seq(|e|, k requires 0 <= k < |e| => StrRepr(e[k].0) + ": " + PyRepr(e[k].1)), ", ") + "}"
  }

  /** `str(v)`, which is also what an f-string inserts. */
  function PyStr(v: Value): string {
    if v.Str? then v.s else PyRepr(v)
  }

  /** The strings of a list of names, as a Python list value. */
  function StrList(names: seq<string>): (r: Value)
    ensures r.List? && |r.elems| == |names|
    ensures forall k :: 0 <= k < |names| ==> r.elems[k] == Str(names[k])
  {
    List(seq(|names|, k requires 0 <= k < |names| => Str(names[k])))
  }
}
