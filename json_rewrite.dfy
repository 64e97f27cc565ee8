/**
 * `ModifySpineJson`: the textual rewrite of an exported skeleton file. For
 * a key `k` the pattern is the regular expression
 * `"k"\s*:\s*"[^"]*"` and `Regex.Replace` substitutes every match, scanning
 * left to right without overlap. `images` fields become
 * `"images": "./images/"` and `audio` fields `"audio": ""`.
 *
 * `MatchLength` is the regular expression anchored at one position (it has
 * at most one match there: `\s*` must stop before `:` or `"`, and `[^"]*`
 * before the next quote); `Replace` is the scan.
 */
module JsonRewrite {
  import opened Wrappers
  import Text

  /** A key the pattern can name: its first character is neither white
      space nor `:`, and it holds no quote. */
  predicate KeyOk(key: string) {
    key != [] && '"' !in key && !Text.IsWhiteSpace(key[0]) && key[0] != ':'
  }

  function QuotedKey(key: string): string {
    "\"" + key + "\""
  }

  /** `s` starts with a match of the pattern for `key` that is `n` long:
      the quoted key, white space up to the colon at `a`, white space up to
      the opening quote at `b`, then a value without quotes and the closing
      quote at `n - 1`. */
  predicate FieldAt(s: string, key: string, a: int, b: int, n: int) {
    var k := |key| + 2;
    k <= a < b < n - 1 && n <= |s| &&
    s[..k] == QuotedKey(key) &&
    (forall i :: k <= i < a ==> Text.IsWhiteSpace(s[i])) && s[a] == ':' &&
    (forall i :: a < i < b ==> Text.IsWhiteSpace(s[i])) && s[b] == '"' &&
    (forall i :: b < i < n - 1 ==> s[i] != '"') && s[n - 1] == '"'
  }

  /** The first position at or after `i` that is not white space. */
  function SkipWhite(s: string, i: nat): (j: nat)
    requires i <= |s|
    ensures i <= j <= |s|
    decreases |s| - i
  {
    if i == |s| || !Text.IsWhiteSpace(s[i]) then i else SkipWhite(s, i + 1)
  }

  /** The first quote at or after `i`, or -1. */
  function NextQuote(s: string, i: nat): (j: int)
    requires i <= |s|
    ensures j == -1 || i <= j < |s|
    decreases |s| - i
  {
    if i == |s| then -1 else if s[i] == '"' then i else NextQuote(s, i + 1)
  }

  lemma {:induction false} SkipWhiteSpec(s: string, i: nat, j: nat)
    requires i <= j <= |s|
    ensures SkipWhite(s, i) == j <==>
            (forall t :: i <= t < j ==> Text.IsWhiteSpace(s[t])) && (j < |s| ==> !Text.IsWhiteSpace(s[j]))
    decreases |s| - i
  {
    if i < j {
      SkipWhiteSpec(s, i + 1, j);
    }
  }

  lemma {:induction false} NextQuoteSpec(s: string, i: nat, j: int)
    requires i <= j < |s|
    ensures NextQuote(s, i) == j <==> (forall t :: i <= t < j ==> s[t] != '"') && s[j] == '"'
    decreases |s| - i
  {
    if i < j {
      NextQuoteSpec(s, i + 1, j);
    }
  }

  /** The length of the match at the start of `s`, if there is one. */
  function MatchLength(s: string, key: string): (r: Option<nat>)
    ensures r.Some? ==> |key| + 2 < r.value <= |s|
  {
    var k := |key| + 2;
    if |s| < k || s[..k] != QuotedKey(key) then None
    else
      var a := SkipWhite(s, k);
      if a == |s| || s[a] != ':' then None
      else
        var b := SkipWhite(s, a + 1);
        if b == |s| || s[b] != '"' then None
        else
          var c := NextQuote(s, b + 1);
          if c < 0 then None else Some(c + 1)
  }

  /** A match found is a match of the pattern. */
  lemma MatchLengthSound(s: string, key: string) returns (a: int, b: int)
    requires MatchLength(s, key).Some?
    ensures FieldAt(s, key, a, b, MatchLength(s, key).value)
  {
    var k := |key| + 2;
    a := SkipWhite(s, k);
    b := SkipWhite(s, a + 1);
    SkipWhiteSpec(s, k, a);
    SkipWhiteSpec(s, a + 1, b);
    NextQuoteSpec(s, b + 1, NextQuote(s, b + 1));
  }

  /** Every match of the pattern at the start of `s` is the one found. */
  lemma MatchLengthComplete(s: string, key: string, a: int, b: int, n: int)
    requires FieldAt(s, key, a, b, n)
    ensures MatchLength(s, key) == Some(n)
  {
    var k := |key| + 2;
    SkipWhiteSpec(s, k, a);
    SkipWhiteSpec(s, a + 1, b);
    NextQuoteSpec(s, b + 1, n - 1);
  }

  /** A matcher gives the length of the match at the start of a text, if
      any; a match is never empty. */
  ghost predicate Advances(f: string -> Option<nat>) {
    forall t :: f(t).Some? ==> 0 < f(t).value <= |t|
  }

  /** `Regex.Replace` for the pattern `f` matches: every match, from left to
      right, replaced by `rep`; characters outside matches copied. */
  function Scan(s: string, f: string -> Option<nat>, rep: string): string
    requires Advances(f)
    decreases |s|
  {
    if s == [] then []
    else match f(s)
      case Some(n) => rep + Scan(s[n..], f, rep)
      case None => [s[0]] + Scan(s[1..], f, rep)
  }

  /** The pattern for `key` as a matcher. */
  function Matcher(key: string): (f: string -> Option<nat>)
    ensures Advances(f)
    ensures forall t :: f(t) == MatchLength(t, key)
  {
    t => MatchLength(t, key)
  }

  /** `Regex.Replace(s, "\"key\"\\s*:\\s*\"[^\"]*\"", rep)`. */
  function Replace(s: string, key: string, rep: string): string {
    Scan(s, Matcher(key), rep)
  }

  /** The replacement text `"key": "value"`. */
  function Field(key: string, value: string): string {
    QuotedKey(key) + ": \"" + value + "\""
  }

  const ImagesField: string := Field("images", "./images/")
  const AudioField: string := Field("audio", "")

  /** `ModifySpineJson`. */
  function ModifySpineJson(text: string, resetImagePaths: bool, resetAudioPaths: bool): (r: string)
    ensures !resetImagePaths && !resetAudioPaths ==> r == text
  {
    var afterImages := if resetImagePaths then Replace(text, "images", ImagesField) else text;
    if resetAudioPaths then Replace(afterImages, "audio", AudioField) else afterImages
  }

  // ---------------------------------------------------------------------
  // Properties of the scan

  /** Text without any match is returned unchanged. */
  lemma {:induction false} NoMatchUnchanged(s: string, f: string -> Option<nat>, rep: string)
    requires Advances(f)
    requires forall i :: 0 <= i < |s| ==> f(s[i..]).None?
    ensures Scan(s, f, rep) == s
    decreases |s|
  {
    if s != [] {
      assert s[0..] == s;
      forall i | 0 <= i < |s[1..]| ensures f(s[1..][i..]).None? {
        assert s[1..][i..] == s[i + 1..];
      }
      NoMatchUnchanged(s[1..], f, rep);
    }
  }

  /** Text without a match of `key` is kept as it is. */
  lemma NoFieldUnchanged(s: string, key: string, rep: string)
    requires forall i :: 0 <= i < |s| ==> MatchLength(s[i..], key).None?
    ensures Replace(s, key, rep) == s
  {
    NoMatchUnchanged(s, Matcher(key), rep);
  }

  /** The replacement text is itself a match, whatever follows it. */
  lemma FieldMatches(key: string, value: string, rest: string)
    requires KeyOk(key) && '"' !in value
    ensures MatchLength(Field(key, value) + rest, key) == Some(|Field(key, value)|)
  {
    var f := Field(key, value);
    var s := f + rest;
    var k := |key| + 2;
    assert s[..k] == QuotedKey(key);
    assert s[k] == ':' && s[k + 1] == ' ' && s[k + 2] == '"';
    assert forall i :: k + 2 < i < |f| - 1 ==> s[i] == value[i - k - 3];
    assert FieldAt(s, key, k, k + 2, |f|);
    MatchLengthComplete(s, key, k, k + 2, |f|);
  }

  /** Where the first match is, and how the scan treats the text around it. */
  lemma {:induction false} FirstMatch(s: string, f: string -> Option<nat>, rep: string) returns (m: int, n: nat)
    requires Advances(f)
    ensures m < 0 ==> Scan(s, f, rep) == s
    ensures m >= 0 ==> m + n <= |s| && f(s[m..]) == Some(n) &&
                       Scan(s, f, rep) == s[..m] + rep + Scan(s[m + n..], f, rep)
    decreases |s|
  {
    if s == [] {
      m, n := -1, 0;
    } else if f(s).Some? {
      m, n := 0, f(s).value;
      assert s[0..] == s && s[..0] + rep == rep;
    } else {
      var m', n' := FirstMatch(s[1..], f, rep);
      if m' < 0 {
        m, n := -1, 0;
        assert [s[0]] + s[1..] == s;
      } else {
        m, n := m' + 1, n';
        ShiftMatch(s, f, rep, m', n');
      }
    }
  }

  /** One copied character in front of the first match moves it by one. */
  lemma ShiftMatch(s: string, f: string -> Option<nat>, rep: string, m': nat, n: nat)
    requires Advances(f) && s != [] && f(s).None?
    requires m' + n <= |s[1..]| && f(s[1..][m'..]) == Some(n)
    requires Scan(s[1..], f, rep) == s[1..][..m'] + rep + Scan(s[1..][m' + n..], f, rep)
    ensures f(s[m' + 1..]) == Some(n)
    ensures Scan(s, f, rep) == s[..m' + 1] + rep + Scan(s[m' + 1 + n..], f, rep)
  {
    assert s[1..][m'..] == s[m' + 1..];
    assert s[1..][m' + n..] == s[m' + 1 + n..];
    ScanCopies(s, f, rep);
    ConsRegroup(s, m' + 1, rep, Scan(s[m' + 1 + n..], f, rep));
  }

  /** Outside a match the scan copies one character. */
  lemma ScanCopies(s: string, f: string -> Option<nat>, rep: string)
    requires Advances(f) && s != [] && f(s).None?
    ensures Scan(s, f, rep) == [s[0]] + Scan(s[1..], f, rep)
  {
  }

  lemma ConsRegroup(s: string, k: nat, rep: string, tail: string)
    requires 1 <= k <= |s|
    ensures [s[0]] + (s[1..][..k - 1] + rep + tail) == s[..k] + rep + tail
  {
    ConsSlice(s, k);
  }

  lemma ConsSlice(s: string, m: int)
    requires 1 <= m <= |s|
    ensures [s[0]] + s[1..][..m - 1] == s[..m]
  {
  }

  /** The quoted key holds a quote only at its two ends. */
  lemma QuotesOfQuotedKey(key: string)
    requires KeyOk(key)
    ensures forall j :: 0 < j < |key| + 1 ==> QuotedKey(key)[j] != '"'
  {
    assert forall j :: 0 < j < |key| + 1 ==> QuotedKey(key)[j] == key[j - 1];
  }

  /** A match in the output that starts before the first replacement lies
      in the copied text up to its opening quote. */
  lemma OutputFieldBounds(s: string, out: string, key: string, m: int, a: int, b: int, n: int)
    requires KeyOk(key) && 1 <= m
    requires m + |key| + 2 <= |s| && m + |key| + 2 <= |out|
    requires s[m..m + |key| + 2] == QuotedKey(key)
    requires out[..m + |key| + 2] == s[..m + |key| + 2]
    requires FieldAt(out, key, a, b, n)
    ensures |key| + 2 <= m && a < m && b <= m
  {
    var k := |key| + 2;
    QuotesOfQuotedKey(key);
    assert s[m..m + k][0] == s[m] && s[m..m + k][1] == s[m + 1];
    assert s[m] == '"' && s[m + 1] == key[0];
    assert out[..m + k][m] == out[m] && out[..m + k][m + 1] == out[m + 1];
    assert out[m] == '"' && out[m + 1] == key[0];
    assert out[..k] == QuotedKey(key);
    if m < k {
      assert false;
    }
  }

  /** A match at the start of the output, before the first replacement,
      was already a match at the start of the input. */
  lemma MatchBeforeReplacement(s: string, out: string, key: string, m: int, a: int, b: int, n: int)
    requires KeyOk(key) && 1 <= m
    requires m + |key| + 2 <= |s| && m + |key| + 2 <= |out|
    requires s[m..m + |key| + 2] == QuotedKey(key)
    requires out[..m + |key| + 2] == s[..m + |key| + 2]
    requires FieldAt(out, key, a, b, n)
    ensures MatchLength(s, key).Some?
  {
    var k := |key| + 2;
    OutputFieldBounds(s, out, key, m, a, b, n);
    assert forall i :: 0 <= i <= b ==> s[i] == out[i];
    assert s[m + k - 1] == '"';
    var c := FirstQuoteFrom(s, b + 1, m + k - 1);
    assert FieldAt(s, key, a, b, c + 1);
    MatchLengthComplete(s, key, a, b, c + 1);
  }

  /** A quote at `j` means a first quote at or after `i`, no later than `j`. */
  lemma {:induction false} FirstQuoteFrom(s: string, i: nat, j: int) returns (c: int)
    requires i <= j < |s| && s[j] == '"'
    ensures i <= c <= j && s[c] == '"' && forall t :: i <= t < c ==> s[t] != '"'
    decreases j - i
  {
    if s[i] == '"' {
      c := i;
    } else {
      c := FirstQuoteFrom(s, i + 1, j);
    }
  }

  /** Replacing keeps the start of the text free of a match when it was. */
  lemma KeepsNoMatch(s: string, key: string, value: string)
    requires KeyOk(key) && '"' !in value
    requires MatchLength(s, key).None?
    ensures MatchLength(Replace(s, key, Field(key, value)), key).None?
  {
    var m, n := FirstMatch(s, Matcher(key), Field(key, value));
    if m >= 0 {
      NoMatchBeforeReplacement(s, key, value, m, n, Replace(s[m + n..], key, Field(key, value)));
    }
  }

  /** The same, for the text as the scan rebuilds it around its first match. */
  lemma NoMatchBeforeReplacement(s: string, key: string, value: string, m: nat, n: nat, tail: string)
    requires KeyOk(key) && '"' !in value
    requires MatchLength(s, key).None?
    requires m + n <= |s| && MatchLength(s[m..], key) == Some(n)
    ensures MatchLength(s[..m] + Field(key, value) + tail, key).None?
  {
    var out := s[..m] + Field(key, value) + tail;
    if MatchLength(out, key).Some? {
      var a, b := MatchLengthSound(out, key);
      ReplacementPrefix(s, key, value, m, n, tail);
      MatchBeforeReplacement(s, out, key, m, a, b, MatchLength(out, key).value);
      assert false;
    }
  }

  /** Up to the end of the quoted key of the first match, the rebuilt text
      is the original. */
  lemma ReplacementPrefix(s: string, key: string, value: string, m: nat, n: nat, tail: string)
    requires MatchLength(s, key).None?
    requires m + n <= |s| && MatchLength(s[m..], key) == Some(n)
    ensures 1 <= m && m + |key| + 2 <= |s| && m + |key| + 2 <= |s[..m] + Field(key, value) + tail|
    ensures s[m..m + |key| + 2] == QuotedKey(key)
    ensures (s[..m] + Field(key, value) + tail)[..m + |key| + 2] == s[..m + |key| + 2]
  {
    var k := |key| + 2;
    assert s[0..] == s;
    var a0, b0 := MatchLengthSound(s[m..], key);
    assert s[m..m + k] == s[m..][..k];
    assert Field(key, value)[..k] == QuotedKey(key);
  }

  /** A scan whose replacement is itself a match, read whole whatever
      follows it, and which never creates a match at a position where there
      was none, is idempotent. */
  lemma {:induction false} ScanIdempotent(s: string, f: string -> Option<nat>, rep: string)
    requires Advances(f)
    requires forall tail :: f(rep + tail) == Some(|rep|)
    requires forall t :: f(t).None? ==> f(Scan(t, f, rep)).None?
    ensures Scan(Scan(s, f, rep), f, rep) == Scan(s, f, rep)
    decreases |s|
  {
    if s != [] {
      match f(s)
      case Some(n) =>
        var tail := Scan(s[n..], f, rep);
        assert f(rep + tail) == Some(|rep|);
        assert (rep + tail)[|rep|..] == tail;
        ScanIdempotent(s[n..], f, rep);
      case None =>
        var tail := Scan(s[1..], f, rep);
        assert f(Scan(s, f, rep)).None?;
        assert ([s[0]] + tail)[1..] == tail;
        ScanIdempotent(s[1..], f, rep);
    }
  }

  /** Rewriting one key twice gives what rewriting it once gives. */
  lemma ReplaceIdempotent(s: string, key: string, value: string)
    requires KeyOk(key) && '"' !in value
    ensures Replace(Replace(s, key, Field(key, value)), key, Field(key, value)) ==
            Replace(s, key, Field(key, value))
  {
    var f := Matcher(key);
    var rep := Field(key, value);
    forall tail ensures f(rep + tail) == Some(|rep|) {
      FieldMatches(key, value, tail);
    }
    forall t | f(t).None? ensures f(Scan(t, f, rep)).None? {
      KeepsNoMatch(t, key, value);
    }
    ScanIdempotent(s, f, rep);
  }

  /** Each reset on its own is idempotent. */
  lemma ResetImagesIdempotent(text: string)
    ensures ModifySpineJson(ModifySpineJson(text, true, false), true, false) == ModifySpineJson(text, true, false)
  {
    ReplaceIdempotent(text, "images", "./images/");
  }

  lemma ResetAudioIdempotent(text: string)
    ensures ModifySpineJson(ModifySpineJson(text, false, true), false, true) == ModifySpineJson(text, false, true)
  {
    ReplaceIdempotent(text, "audio", "");
  }

  /** A field of the key whose value, after the white space following the
      colon, does not open with a quote (a number, an object, `null`) is no
      match: the scan copies its first character. */
  lemma NonStringValueKept(s: string, key: string, rep: string, a: int)
    requires |key| + 2 <= a < |s| && s[..|key| + 2] == QuotedKey(key)
    requires forall i :: |key| + 2 <= i < a ==> Text.IsWhiteSpace(s[i])
    requires s[a] == ':'
    requires SkipWhite(s, a + 1) < |s| ==> s[SkipWhite(s, a + 1)] != '"'
    ensures Replace(s, key, rep) == [s[0]] + Replace(s[1..], key, rep)
  {
    SkipWhiteSpec(s, |key| + 2, a);
    if MatchLength(s, key).Some? {
      var a', b := MatchLengthSound(s, key);
      assert false;
    }
  }
}
