/**
 * The small part of .NET's string library the core relies on: white space as
 * `char.IsWhiteSpace` (and the regular-expression class `\s`) define it,
 * `Trim`, `Split`, `string.Join` and ASCII lower-casing.
 */
module Text {

  /** `char.IsWhiteSpace`: U+0009..U+000D, U+0085 and the Unicode separators
      (categories Zs, Zl, Zp). .NET's `\s` in a regular expression is the same set. */
  predicate IsWhiteSpace(c: char) {
    || ('\U{9}' <= c <= '\U{D}')
    || c == ' ' || c == '\U{85}' || c == '\U{A0}' || c == '\U{1680}'
    || ('\U{2000}' <= c <= '\U{200A}')
    || c == '\U{2028}' || c == '\U{2029}' || c == '\U{202F}' || c == '\U{205F}' || c == '\U{3000}'
  }

  predicate IsQuote(c: char) {
    c == '"'
  }

  /** Number of leading characters of `s` that `drop` accepts. */
  function LeadingCount(s: string, drop: char -> bool): (n: nat)
    ensures n <= |s|
    ensures forall i :: 0 <= i < n ==> drop(s[i])
    ensures n < |s| ==> !drop(s[n])
  {
    if s != [] && drop(s[0]) then 1 + LeadingCount(s[1..], drop) else 0
  }

  /** Number of trailing characters of `s` that `drop` accepts. */
  function TrailingCount(s: string, drop: char -> bool): (n: nat)
    ensures n <= |s|
    ensures forall i :: |s| - n <= i < |s| ==> drop(s[i])
    ensures n < |s| ==> !drop(s[|s| - n - 1])
  {
    if s != [] && drop(s[|s| - 1]) then 1 + TrailingCount(s[..|s| - 1], drop) else 0
  }

  /** `s.Trim(...)`: remove every leading and trailing character `drop` accepts. */
  function TrimWhere(s: string, drop: char -> bool): (r: string)
    ensures LeadingCount(s, drop) == |s| ==> r == []
    ensures LeadingCount(s, drop) < |s| ==>
              LeadingCount(s, drop) < |s| - TrailingCount(s, drop) &&
              r == s[LeadingCount(s, drop)..|s| - TrailingCount(s, drop)]
    ensures r != [] ==> !drop(r[0]) && !drop(r[|r| - 1])
  {
    var a := LeadingCount(s, drop);
    if a == |s| then [] else s[a..|s| - TrailingCount(s, drop)]
  }

  /** `s.Trim('"')`. */
  function TrimQuotes(s: string): string {
    TrimWhere(s, IsQuote)
  }

  /** `s.Trim()`. */
  function Trim(s: string): string {
    TrimWhere(s, IsWhiteSpace)
  }

  /** Trimming twice removes nothing more than trimming once. */
  lemma TrimWhereIdempotent(s: string, drop: char -> bool)
    ensures TrimWhere(TrimWhere(s, drop), drop) == TrimWhere(s, drop)
  {
    var r := TrimWhere(s, drop);
    if r != [] {
      assert LeadingCount(r, drop) == 0;
      assert TrailingCount(r, drop) == 0;
    }
  }

  /** A string that neither starts nor ends with a character `drop` accepts
      is its own trim. */
  lemma TrimWhereUnchanged(s: string, drop: char -> bool)
    requires s != [] && !drop(s[0]) && !drop(s[|s| - 1])
    ensures TrimWhere(s, drop) == s
  {
    assert LeadingCount(s, drop) == 0;
    assert TrailingCount(s, drop) == 0;
  }

  /** Trimming quotes undoes wrapping a text in quotes, when the text itself
      neither starts nor ends with one. */
  lemma TrimQuotesOfQuoted(s: string)
    requires s != [] && !IsQuote(s[0]) && !IsQuote(s[|s| - 1])
    ensures TrimQuotes("\"" + s + "\"") == s
  {
    var w := "\"" + s + "\"";
    assert w[1..] == s + "\"" && w[..|w| - 1] == "\"" + s;
    assert LeadingCount(w[1..], IsQuote) == 0 by {
      assert w[1..][0] == s[0];
    }
    assert LeadingCount(w, IsQuote) == 1;
    assert TrailingCount(w[..|w| - 1], IsQuote) == 0 by {
      assert w[..|w| - 1][|w| - 2] == s[|s| - 1];
    }
    assert TrailingCount(w, IsQuote) == 1;
    assert w[1..|w| - 1] == s;
  }

  /** Index of the first `c` in `s`, or -1. */
  function IndexOf(s: string, c: char): (i: int)
    ensures -1 <= i < |s|
    ensures i >= 0 ==> s[i] == c
    ensures forall k :: 0 <= k < |s| && (i < 0 || k < i) ==> s[k] != c
  {
    if s == [] then -1
    else if s[0] == c then 0
    else var j := IndexOf(s[1..], c); if j < 0 then -1 else j + 1
  }

  /** `s.Split(sep)`: the pieces between occurrences of `sep`, empty pieces kept. */
  function Split(s: string, sep: char): (parts: seq<string>)
    ensures |parts| > 0
    ensures forall k :: 0 <= k < |parts| ==> sep !in parts[k]
    decreases |s|
  {
    var i := IndexOf(s, sep);
    if i < 0 then
      AbsentBefore(s, sep, |s|);
      [s]
    else
      var rest := Split(s[i + 1..], sep);
      AbsentBefore(s, sep, i);
      var parts := [s[..i]] + rest;
      assert forall k :: 1 <= k < |parts| ==> parts[k] == rest[k - 1];
      parts
  }

  lemma AbsentBefore(s: string, c: char, i: nat)
    requires i <= |s|
    requires forall k :: 0 <= k < i ==> s[k] != c
    ensures c !in s[..i]
  {
    assert forall k :: 0 <= k < i ==> s[..i][k] == s[k];
  }

  /** `string.Join(sep, parts)`. */
  function Join(parts: seq<string>, sep: string): string {
    if parts == [] then []
    else if |parts| == 1 then parts[0]
    else parts[0] + sep + Join(parts[1..], sep)
  }

  predicate StartsWith(s: string, prefix: string) {
    |prefix| <= |s| && s[..|prefix|] == prefix
  }

  /** `t` occurs in `s` at index `i`. */
  predicate OccursAt(s: string, t: string, i: nat) {
    i + |t| <= |s| && s[i..i + |t|] == t
  }

  /** Where the `k`-th part starts in `Join(parts, sep)`. */
  function JoinOffset(parts: seq<string>, sep: string, k: nat): nat
    requires k < |parts|
  {
    if k == 0 then 0 else |parts[0]| + |sep| + JoinOffset(parts[1..], sep, k - 1)
  }

  /** Every part appears in the joined text, at its offset. */
  lemma {:induction false} JoinPart(parts: seq<string>, sep: string, k: nat)
    requires k < |parts|
    ensures JoinOffset(parts, sep, k) + |parts[k]| <= |Join(parts, sep)|
    ensures Join(parts, sep)[JoinOffset(parts, sep, k)..JoinOffset(parts, sep, k) + |parts[k]|] == parts[k]
  {
    if k > 0 {
      var rest := Join(parts[1..], sep);
      var head := parts[0] + sep;
      JoinPart(parts[1..], sep, k - 1);
      var i := JoinOffset(parts[1..], sep, k - 1);
      assert Join(parts, sep) == head + rest;
      assert (head + rest)[|head| + i..|head| + i + |parts[k]|] == rest[i..i + |parts[k]|];
    }
  }

  /** Splitting and joining with the same separator gives the text back. */
  lemma {:induction false} JoinSplit(s: string, sep: char)
    ensures Join(Split(s, sep), [sep]) == s
    decreases |s|
  {
    var i := IndexOf(s, sep);
    if i >= 0 {
      JoinSplit(s[i + 1..], sep);
      assert s == s[..i] + [sep] + s[i + 1..];
    }
  }

  function LowerAscii(c: char): char {
    if 'A' <= c <= 'Z' then (c as int + 32) as char else c
  }

  /** Lower-casing restricted to the ASCII letters A-Z. */
  function ToLowerAscii(s: string): (r: string)
    ensures |r| == |s|
    ensures forall i :: 0 <= i < |s| ==> r[i] == LowerAscii(s[i])
  {
    seq(|s|, i requires 0 <= i < |s| => LowerAscii(s[i]))
  }

  predicate IsUpperAscii(c: char) {
    'A' <= c <= 'Z'
  }

  /** `c` and `d` are the same letter up to ASCII case: equal, or one is an
      upper-case letter and the other its lower-case partner. */
  predicate SameLetter(c: char, d: char) {
    c == d || (IsUpperAscii(c) && d as int == c as int + 32) || (IsUpperAscii(d) && c as int == d as int + 32)
  }

  /** Equal up to ASCII case, position by position. */
  predicate SameIgnoringCase(a: string, b: string) {
    |a| == |b| && forall i :: 0 <= i < |a| ==> SameLetter(a[i], b[i])
  }

  /** No upper-case ASCII letter is left after lower-casing. */
  lemma ToLowerAsciiHasNoUpper(s: string)
    ensures forall i :: 0 <= i < |s| ==> !IsUpperAscii(ToLowerAscii(s)[i])
  {
  }

  /** Lower-casing twice is lower-casing once. */
  lemma ToLowerAsciiIdempotent(s: string)
    ensures ToLowerAscii(ToLowerAscii(s)) == ToLowerAscii(s)
  {
  }

  /** Two texts lower-case to the same text exactly when they differ only in
      ASCII case: this is the case-insensitive comparison the name check
      relies on. */
  lemma ToLowerAsciiEqual(a: string, b: string)
    ensures ToLowerAscii(a) == ToLowerAscii(b) <==> SameIgnoringCase(a, b)
  {
    if ToLowerAscii(a) == ToLowerAscii(b) {
      forall i | 0 <= i < |a| ensures SameLetter(a[i], b[i]) {
        assert ToLowerAscii(a)[i] == ToLowerAscii(b)[i];
      }
    }
    if SameIgnoringCase(a, b) {
      assert forall i :: 0 <= i < |a| ==> ToLowerAscii(a)[i] == ToLowerAscii(b)[i];
    }
  }
}
