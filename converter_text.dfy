/**
 * Small text functions of the converter service: the non-ASCII test that
 * decides whether a path is staged through a temporary copy, and the
 * version line picked out of `Spine --version` output.
 */
module ConverterText {
  import opened Wrappers
  import Text

  /** `ContainsNonAsciiCharacters`: some character is above 127. */
  function ContainsNonAscii(s: string): (r: bool)
    ensures r <==> exists i :: 0 <= i < |s| && s[i] as int > 127
  {
    if s == [] then false
    else
      var rest := ContainsNonAscii(s[1..]);
      assert forall i :: 1 <= i < |s| ==> s[i] == s[1..][i - 1];
      assert rest ==> exists i :: 0 <= i < |s| && s[i] as int > 127 by {
        if rest {
          var j :| 0 <= j < |s[1..]| && s[1..][j] as int > 127;
          assert s[j + 1] as int > 127;
        }
      }
      s[0] as int > 127 || rest
  }

  /** What `ParseVersionFromOutput` answers for empty output. */
  const UnknownVersion: string := "未知版本"

  /** The word looked for, compared without regard to ASCII case. */
  const VersionWord: string := "version"

  /** The word starts at position `i` of `line`, in any ASCII case. */
  predicate MentionsAt(line: string, i: int) {
    0 <= i && i + |VersionWord| <= |line| &&
    Text.ToLowerAscii(line[i..i + |VersionWord|]) == VersionWord
  }

  /** `line.Contains("version", StringComparison.OrdinalIgnoreCase)`. */
  predicate ContainsVersion(line: string) {
    exists i :: 0 <= i <= |line| && MentionsAt(line, i)
  }

  /** The first line that mentions the version, trimmed. */
  function FirstVersionLine(lines: seq<string>): (r: Option<string>)
    ensures r.None? <==> forall k :: 0 <= k < |lines| ==> !ContainsVersion(lines[k])
    ensures r.Some? ==> exists k :: 0 <= k < |lines| && ContainsVersion(lines[k]) &&
                          r.value == Text.Trim(lines[k]) &&
                          forall j :: 0 <= j < k ==> !ContainsVersion(lines[j])
  {
    if lines == [] then None
    else if ContainsVersion(lines[0]) then Some(Text.Trim(lines[0]))
    else
      var r := FirstVersionLine(lines[1..]);
      assert forall k :: 1 <= k < |lines| ==> lines[k] == lines[1..][k - 1];
      if r.Some? then
        var k :| 0 <= k < |lines[1..]| && ContainsVersion(lines[1..][k]) &&
                 r.value == Text.Trim(lines[1..][k]) &&
                 forall j :: 0 <= j < k ==> !ContainsVersion(lines[1..][j]);
        assert lines[k + 1] == lines[1..][k];
        r
      else
        r
  }

  /** The answer `ParseVersionFromOutput` gives. */
  function VersionFromOutput(output: string): string {
    if output == "" then UnknownVersion
    else
      var lines := Text.Split(output, '\n');
      match FirstVersionLine(lines)
      case Some(line) => line
      case None => Text.Trim(lines[0])
  }

  /** `ParseVersionFromOutput`: the loop over the lines with its early
      return. */
  method ParseVersionFromOutput(output: string) returns (r: string)
    ensures r == VersionFromOutput(output)
  {
    if output == "" {
      return UnknownVersion;
    }
    var lines := Text.Split(output, '\n');
    for i := 0 to |lines|
      invariant FirstVersionLine(lines) == FirstVersionLine(lines[i..])
    {
      assert lines[i..][1..] == lines[i + 1..];
      if ContainsVersion(lines[i]) {
        return Text.Trim(lines[i]);
      }
    }
    return Text.Trim(lines[0]);
  }

  /** Trimming keeps a run of characters that are not white space at both
      ends: the run sits `a` places earlier in the trimmed line. */
  lemma TrimKeepsRun(line: string, i: int, j: int) returns (a: nat)
    requires 0 <= i < j <= |line|
    requires !Text.IsWhiteSpace(line[i]) && !Text.IsWhiteSpace(line[j - 1])
    ensures a <= i && j - a <= |Text.Trim(line)|
    ensures Text.Trim(line)[i - a..j - a] == line[i..j]
  {
    a := Text.LeadingCount(line, Text.IsWhiteSpace);
    var t := Text.TrailingCount(line, Text.IsWhiteSpace);
    assert a <= i;
    assert j <= |line| - t;
    var r := Text.Trim(line);
    assert r == line[a..|line| - t];
    forall k | 0 <= k < j - i
      ensures r[i - a..j - a][k] == line[i..j][k]
    {
      assert r[i - a + k] == line[i + k];
    }
  }

  /** Trimming adds no character. */
  lemma TrimKeepsOut(line: string, c: char)
    requires c !in line
    ensures c !in Text.Trim(line)
  {
    var a := Text.LeadingCount(line, Text.IsWhiteSpace);
    if a < |line| {
      var r := Text.Trim(line);
      var b := |line| - Text.TrailingCount(line, Text.IsWhiteSpace);
      assert r == line[a..b];
      forall k | 0 <= k < |r| ensures r[k] != c {
        assert r[k] == line[a + k];
      }
    }
  }

  /** A line that mentions the version still does after trimming, because
      the letters of the word are not white space. */
  lemma TrimKeepsVersion(line: string)
    requires ContainsVersion(line)
    ensures ContainsVersion(Text.Trim(line))
  {
    var n := |VersionWord|;
    var i :| 0 <= i <= |line| && MentionsAt(line, i);
    var w := line[i..i + n];
    assert Text.LowerAscii(w[0]) == 'v' && Text.LowerAscii(w[n - 1]) == 'n' by {
      assert Text.ToLowerAscii(w)[0] == Text.LowerAscii(w[0]);
      assert Text.ToLowerAscii(w)[n - 1] == Text.LowerAscii(w[n - 1]);
    }
    assert line[i] == w[0] && line[i + n - 1] == w[n - 1];
    var a := TrimKeepsRun(line, i, i + n);
    var r := Text.Trim(line);
    assert MentionsAt(r, i - a);
  }

  /** The answer is one line: it never holds a line break. */
  lemma VersionIsOneLine(output: string)
    ensures '\n' !in VersionFromOutput(output)
  {
    if output != "" {
      var lines := Text.Split(output, '\n');
      var first := FirstVersionLine(lines);
      if first.Some? {
        var k :| 0 <= k < |lines| && first.value == Text.Trim(lines[k]);
        TrimKeepsOut(lines[k], '\n');
      } else {
        TrimKeepsOut(lines[0], '\n');
      }
    }
  }

  /** When some line mentions the version, the answer is the first such line,
      trimmed, and it still mentions the version; otherwise it is the first
      line, trimmed. */
  lemma VersionLineChosen(output: string)
    requires output != ""
    ensures (exists k :: 0 <= k < |Text.Split(output, '\n')| && ContainsVersion(Text.Split(output, '\n')[k])) ==>
            ContainsVersion(VersionFromOutput(output))
    ensures (forall k :: 0 <= k < |Text.Split(output, '\n')| ==> !ContainsVersion(Text.Split(output, '\n')[k])) ==>
            VersionFromOutput(output) == Text.Trim(Text.Split(output, '\n')[0])
  {
    var lines := Text.Split(output, '\n');
    var first := FirstVersionLine(lines);
    if first.Some? {
      var k :| 0 <= k < |lines| && ContainsVersion(lines[k]) && first.value == Text.Trim(lines[k]);
      TrimKeepsVersion(lines[k]);
    }
  }
}
