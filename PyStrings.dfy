/**
 * The Python `str` operations the handlers use: `title`, `strip`,
 * `replace`, `split`, `startswith`, `join` and the decimal form of an int.
 * Case mapping covers the ASCII letters only.
 */
module PyStrings {

  /** The characters `str.isspace()` accepts, i.e. those `str.strip()` removes. */
  predicate IsSpace(c: char) {
    || ('\U{9}' <= c <= '\U{D}')
    || ('\U{1C}' <= c <= '\U{20}')
    || c == '\U{85}' || c == '\U{A0}' || c == '\U{1680}'
    || ('\U{2000}' <= c <= '\U{200A}')
    || c == '\U{2028}' || c == '\U{2029}' || c == '\U{202F}' || c == '\U{205F}' || c == '\U{3000}'
  }

  /** A cased character: one that has an upper- and a lower-case form. */
  predicate IsCased(c: char) {
    'A' <= c <= 'Z' || 'a' <= c <= 'z'
  }

  function Lower(c: char): (d: char)
    ensures IsCased(d) <==> IsCased(c)
    ensures !IsCased(c) ==> d == c
    ensures !('A' <= d <= 'Z')
  {
    if 'A' <= c <= 'Z' then (c as int + 32) as char else c
  }

  function Upper(c: char): (d: char)
    ensures IsCased(d) <==> IsCased(c)
    ensures !IsCased(c) ==> d == c
    ensures !('a' <= d <= 'z')
  {
    if 'a' <= c <= 'z' then (c as int - 32) as char else c
  }

  /** A character titled after one whose casedness is `prevCased`. */
  function TitleChar(prevCased: bool, c: char): (d: char)
    ensures IsCased(d) <==> IsCased(c)
    ensures !IsCased(c) ==> d == c
  {
    if prevCased then Lower(c) else Upper(c)
  }

  lemma TitleCharIdempotent(prevCased: bool, c: char)
    ensures TitleChar(prevCased, TitleChar(prevCased, c)) == TitleChar(prevCased, c)
  {
  }

  /**
   * `str.title()` continued after a character whose casedness is `prevCased`:
   * a cased character becomes lower case after a cased one and upper case
   * otherwise; every other character is kept.
   */
  function TitleFrom(s: string, prevCased: bool): (r: string)
    ensures |r| == |s|
  {
    seq(|s|, i requires 0 <= i < |s| => TitleAt(s, prevCased, i))
  }

  /** The `i`-th character of `TitleFrom(s, prevCased)`: it depends on `s[i]` and the character before it. */
  function TitleAt(s: string, prevCased: bool, i: nat): char
    requires i < |s|
  {
    TitleChar(if i == 0 then prevCased else IsCased(s[i - 1]), s[i])
  }

  /** `str.title()`. */
  function Title(s: string): string {
    TitleFrom(s, false)
  }

  /** Titling keeps every character's casedness, and every uncased character as it is. */
  lemma TitleFromCased(s: string, p: bool)
    ensures forall i {:trigger TitleFrom(s, p)[i]} :: 0 <= i < |s| ==> (IsCased(TitleFrom(s, p)[i]) <==> IsCased(s[i]))
    ensures forall i {:trigger TitleFrom(s, p)[i]} :: 0 <= i < |s| && !IsCased(s[i]) ==> TitleFrom(s, p)[i] == s[i]
  {
  }

  lemma TitleIdempotent(s: string, p: bool)
    ensures TitleFrom(TitleFrom(s, p), p) == TitleFrom(s, p)
  {
    var t := TitleFrom(s, p);
    forall i | 0 <= i < |s|
      ensures TitleFrom(t, p)[i] == t[i]
    {
      if i > 0 {
        assert IsCased(t[i - 1]) <==> IsCased(s[i - 1]);
      }
      TitleCharIdempotent(if i == 0 then p else IsCased(s[i - 1]), s[i]);
    }
  }

  /** A slice of titled text that starts after an uncased character is already titled. */
  lemma TitledSliceStable(x: string, i: nat, j: nat)
    requires i <= j <= |x|
    requires i > 0 ==> !IsCased(x[i - 1])
    ensures Title(Title(x)[i..j]) == Title(x)[i..j]
  {
    var t := Title(x);
    var u := t[i..j];
    forall k | 0 <= k < j - i
      ensures Title(u)[k] == u[k]
    {
      if k > 0 {
        assert IsCased(u[k - 1]) <==> IsCased(x[i + k - 1]);
      }
      TitleCharIdempotent(if i + k == 0 then false else IsCased(x[i + k - 1]), x[i + k]);
    }
  }

  /** `s.replace(a, b)` for one-character `a` and `b`. */
  function ReplaceChar(s: string, a: char, b: char): (r: string)
    ensures |r| == |s|
    ensures a != b ==> a !in r
  {
    seq(|s|, i requires 0 <= i < |s| => if s[i] == a then b else s[i])
  }

  lemma TitleReplaceUncased(s: string, p: bool, a: char, b: char)
    requires !IsCased(a) && !IsCased(b)
    ensures TitleFrom(ReplaceChar(s, a, b), p) == ReplaceChar(TitleFrom(s, p), a, b)
  {
    var l := TitleFrom(ReplaceChar(s, a, b), p);
    var r := ReplaceChar(TitleFrom(s, p), a, b);
    forall i | 0 <= i < |s|
      ensures l[i] == r[i]
    {
      if i > 0 {
        assert IsCased(ReplaceChar(s, a, b)[i - 1]) <==> IsCased(s[i - 1]);
      }
    }
  }

  /** Number of leading whitespace characters. */
  function LeadingSpaces(s: string): (n: nat)
    ensures n <= |s|
    ensures forall k :: 0 <= k < n ==> IsSpace(s[k])
    ensures n < |s| ==> !IsSpace(s[n])
  {
    if s != [] && IsSpace(s[0]) then 1 + LeadingSpaces(s[1..]) else 0
  }

  /** Length of `s` without its trailing whitespace. */
  function TrailingStart(s: string): (m: nat)
    ensures m <= |s|
    ensures forall k :: m <= k < |s| ==> IsSpace(s[k])
    ensures m > 0 ==> !IsSpace(s[m - 1])
  {
    if s != [] && IsSpace(s[|s| - 1]) then TrailingStart(s[..|s| - 1]) else |s|
  }

  /** `str.strip()`: whitespace removed from both ends. */
  function Strip(s: string): (r: string)
    ensures r != [] ==> !IsSpace(r[0]) && !IsSpace(r[|r| - 1])
    ensures LeadingSpaces(s) + |r| <= |s| && r == s[LeadingSpaces(s)..LeadingSpaces(s) + |r|]
    ensures forall k :: LeadingSpaces(s) + |r| <= k < |s| ==> IsSpace(s[k])
  {
    var l := s[LeadingSpaces(s)..];
    l[..TrailingStart(l)]
  }

  /**
   * Whatever way the text splits into whitespace, a middle part without
   * surrounding whitespace, and whitespace, `Strip` gives that middle part.
   */
  lemma StripSpec(a: string, m: string, b: string)
    requires forall k :: 0 <= k < |a| ==> IsSpace(a[k])
    requires forall k :: 0 <= k < |b| ==> IsSpace(b[k])
    requires m != [] ==> !IsSpace(m[0]) && !IsSpace(m[|m| - 1])
    ensures Strip(a + m + b) == m
  {
    var s := a + m + b;
    var r := Strip(s);
    if m == [] {
      assert forall k :: 0 <= k < |s| ==> IsSpace(s[k]) by {
        forall k | 0 <= k < |s| ensures IsSpace(s[k]) {
          if k >= |a| { assert s[k] == b[k - |a|]; }
        }
      }
    } else {
      assert s[|a|] == m[0];
      assert s[|a| + |m| - 1] == m[|m| - 1];
      assert forall k :: 0 <= k < |a| ==> s[k] == a[k];
      assert forall k :: |a| + |m| <= k < |s| ==> s[k] == b[k - |a| - |m|];
      assert r == s[|a|..|a| + |m|];
    }
  }

  lemma StripUnchanged(s: string)
    requires s != [] ==> !IsSpace(s[0]) && !IsSpace(s[|s| - 1])
    ensures Strip(s) == s
  {
  }

  predicate StartsWith(s: string, prefix: string) {
    |prefix| <= |s| && s[..|prefix|] == prefix
  }

  /** Index of the first occurrence of `c` in `s`. */
  function Find(s: string, c: char): (i: nat)
    requires c in s
    ensures i < |s| && s[i] == c && c !in s[..i]
  {
    if s[0] == c then 0 else 1 + Find(s[1..], c)
  }

  /** `s.split(sep)` for a one-character separator. */
  function Split(s: string, sep: char): (parts: seq<string>)
    ensures |parts| >= 1
    ensures forall k :: 0 <= k < |parts| ==> sep !in parts[k]
    ensures |parts| >= 2 <==> sep in s
    ensures StartsWith(s, parts[0])
    ensures sep !in s ==> parts == [s]
    ensures sep in s ==> parts[0] == s[..Find(s, sep)] && StartsWith(s[Find(s, sep) + 1..], parts[1])
    decreases |s|
  {
    if sep in s then
      var i := Find(s, sep);
      [s[..i]] + Split(s[i + 1..], sep)
    else
      [s]
  }

  /** `sep.join(parts)`. */
  function Join(parts: seq<string>, sep: string): string {
    if parts == [] then ""
    else if |parts| == 1 then parts[0]
    else parts[0] + sep + Join(parts[1..], sep)
  }

  /** Joining the pieces of a split with the separator gives back the text. */
  lemma {:induction false} SplitJoin(s: string, sep: char)
    ensures Join(Split(s, sep), [sep]) == s
    decreases |s|
  {
    if sep in s {
      var i := Find(s, sep);
      SplitJoin(s[i + 1..], sep);
      assert s == s[..i] + [sep] + s[i + 1..];
    }
  }

  /** The first occurrence of `c` is the only index with `c` there and none before. */
  lemma {:induction false} FindUnique(s: string, c: char, i: nat)
    requires i < |s| && s[i] == c && c !in s[..i]
    ensures Find(s, c) == i
  {
    if i > 0 {
      assert s[0] == s[..i][0];
      assert s[1..][..i - 1] == s[..i][1..];
      FindUnique(s[1..], c, i - 1);
    }
  }

  /** Splitting a join of separator-free pieces gives back the pieces. */
  lemma {:induction false} JoinSplit(parts: seq<string>, sep: char)
    requires |parts| >= 1
    requires forall k :: 0 <= k < |parts| ==> sep !in parts[k]
    ensures Split(Join(parts, [sep]), sep) == parts
    decreases |parts|
  {
    if |parts| > 1 {
      var rest := Join(parts[1..], [sep]);
      var s := Join(parts, [sep]);
      assert s == parts[0] + [sep] + rest;
      var i := |parts[0]|;
      assert s[..i] == parts[0] && s[i] == sep;
      FindUnique(s, sep, i);
      assert s[i + 1..] == rest;
      JoinSplit(parts[1..], sep);
    }
  }

  function DigitChar(d: nat): char
    requires d < 10
  {
    "0123456789"[d]
  }

  function NatToString(n: nat): (r: string)
    ensures r != []
  {
    if n < 10 then [DigitChar(n)] else NatToString(n / 10) + [DigitChar(n % 10)]
  }

  /** `str(i)` for an int. */
  function IntToString(i: int): string {
    if i < 0 then "-" + NatToString(-i) else NatToString(i)
  }
}
