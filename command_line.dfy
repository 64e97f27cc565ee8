/**
 * The argument lists the converter hands to the Spine command line: the
 * one `ExportSpineFileAsync` builds (with staged copies of paths that are
 * not ASCII, and a choice of export settings) and the one
 * `BuildCommandLineArguments` builds. Both are joined with single spaces.
 *
 * `Tokenize` is how the receiving program splits such a line, by the rules
 * of the Microsoft C runtime: spaces and tabs outside quotes separate
 * arguments, quotes are dropped, `""` inside quotes is a literal quote,
 * and a run of backslashes is literal unless a quote follows it, when
 * each pair becomes one backslash and an odd one out makes the quote
 * literal (after an even run, `""` inside quotes is again one literal
 * quote). Joining, then tokenizing, gives back the unquoted arguments.
 */
module CommandLine {
  import Text
  import Paths
  import ConverterText

  /** `$"\"{p}\""`. */
  function Quote(p: string): string {
    "\"" + p + "\""
  }

  /** Where the export settings of one export come from. */
  datatype SettingsSource = Custom(path: string) | Default(path: string) | BuiltIn

  /** The configured settings file when it is set and exists, else the
      default file when it exists, else the built-in `--export` flags. */
  function ChooseSettings(exportSettingsPath: string, defaultPath: string, fs: Paths.FileSystem): (r: SettingsSource)
    ensures r.Custom? <==> exportSettingsPath != "" && fs.Exists(exportSettingsPath)
    ensures r.Custom? ==> r.path == exportSettingsPath
    ensures r.Default? <==> !r.Custom? && fs.Exists(defaultPath)
    ensures r.Default? ==> r.path == defaultPath
  {
    if exportSettingsPath != "" && fs.Exists(exportSettingsPath) then Custom(exportSettingsPath)
    else if fs.Exists(defaultPath) then Default(defaultPath)
    else BuiltIn
  }

  function SettingsArguments(source: SettingsSource): seq<string> {
    match source
    case Custom(p) => ["-e", Quote(p)]
    case Default(p) => ["-e", Quote(p)]
    case BuiltIn => ["--export", "json", "--export", "atlas", "--export", "images"]
  }

  /** The path handed to Spine: the staged copy when the original holds a
      character above 127, the original otherwise. */
  function Staged(path: string, stagedCopy: string): (r: string)
    ensures r == path || r == stagedCopy
  {
    if ConverterText.ContainsNonAscii(path) then stagedCopy else path
  }

  /** The argument list of `ExportSpineFileAsync`. */
  function ExportArguments(spineFile: string, outputDir: string, tempInput: string, tempOutputDir: string,
                           source: SettingsSource): (r: seq<string>)
    ensures |r| == if source.BuiltIn? then 10 else 6
    ensures r[..4] == ["-i", Quote(Staged(spineFile, tempInput)), "-o", Quote(Staged(outputDir, tempOutputDir))]
    ensures r[4] == "-e" <==> !source.BuiltIn?
    ensures !source.BuiltIn? ==> r[5] == Quote(source.path)
  {
    ["-i", Quote(Staged(spineFile, tempInput)), "-o", Quote(Staged(outputDir, tempOutputDir))] +
    SettingsArguments(source)
  }

  /** Staging leaves Spine only ASCII paths, as long as the staged copies
      themselves are ASCII. */
  lemma StagedIsAscii(path: string, stagedCopy: string)
    requires !ConverterText.ContainsNonAscii(stagedCopy)
    ensures !ConverterText.ContainsNonAscii(Staged(path, stagedCopy))
  {
  }

  /** The argument list of `BuildCommandLineArguments`, before joining. */
  function ConvertArguments(inputPath: string, outputDir: string, settingsPath: string): (r: seq<string>)
    ensures |r| == 6
    ensures r[0] == "-i" && r[2] == "-o" && r[4] == "-e"
    ensures r[1] == Quote(inputPath) && r[3] == Quote(outputDir) && r[5] == Quote(settingsPath)
  {
    ["-i", Quote(inputPath), "-o", Quote(outputDir), "-e", Quote(settingsPath)]
  }

  /** `string.Join(" ", arguments)`. */
  function CommandText(args: seq<string>): string {
    Text.Join(args, " ")
  }

  // ---------------------------------------------------------------------
  // Reading a command line back

  function Backslashes(n: nat): (r: string)
    ensures |r| == n && forall k :: 0 <= k < n ==> r[k] == '\\'
  {
    if n == 0 then [] else ['\\'] + Backslashes(n - 1)
  }

  /** The number of backslashes `s` starts with. */
  function Run(s: string): (n: nat)
    ensures n <= |s|
    ensures forall k :: 0 <= k < n ==> s[k] == '\\'
    ensures n < |s| ==> s[n] != '\\'
  {
    if s != [] && s[0] == '\\' then 1 + Run(s[1..]) else 0
  }

  /** The number of backslashes `s` ends with. */
  function TrailingRun(s: string): (n: nat)
    ensures n <= |s|
    ensures forall k :: |s| - n <= k < |s| ==> s[k] == '\\'
    ensures n < |s| ==> s[|s| - n - 1] != '\\'
  {
    if s != [] && s[|s| - 1] == '\\' then 1 + TrailingRun(s[..|s| - 1]) else 0
  }

  predicate IsBlank(c: char) {
    c == ' ' || c == '\t'
  }

  /** Scans `s`; `cur` is the argument being read, `quoted` whether a quote
      is open, `started` whether an argument has begun. */
  function Scan(s: string, cur: string, quoted: bool, started: bool): seq<string>
    decreases |s|
  {
    if s == [] then (if started then [cur] else [])
    else if s[0] == '\\' then
      var n := Run(s);
      if n < |s| && s[n] == '"' then
        if n % 2 == 0 then
          if quoted && n + 1 < |s| && s[n + 1] == '"' then Scan(s[n + 2..], cur + Backslashes(n / 2) + "\"", true, true)
          else Scan(s[n + 1..], cur + Backslashes(n / 2), !quoted, true)
        else Scan(s[n + 1..], cur + Backslashes(n / 2) + "\"", quoted, true)
      else Scan(s[n..], cur + s[..n], quoted, true)
    else if s[0] == '"' then
      if quoted && |s| > 1 && s[1] == '"' then Scan(s[2..], cur + "\"", true, true)
      else Scan(s[1..], cur, !quoted, true)
    else if IsBlank(s[0]) && !quoted then (if started then [cur] else []) + Scan(s[1..], "", false, false)
    else Scan(s[1..], cur + [s[0]], quoted, true)
  }

  function Tokenize(s: string): seq<string> {
    Scan(s, "", false, false)
  }

  predicate IsQuoted(a: string) {
    |a| >= 2 && a[0] == '"' && a[|a| - 1] == '"'
  }

  /** An argument that reads back as intended: a quoted text without quotes
      that ends in an even number of backslashes, or a non-empty bare word
      without blanks or quotes that does not end in a backslash. */
  predicate WellFormed(a: string) {
    if IsQuoted(a) then '"' !in a[1..|a| - 1] && TrailingRun(a[1..|a| - 1]) % 2 == 0
    else a != [] && '"' !in a && ' ' !in a && '\t' !in a && a[|a| - 1] != '\\'
  }

  /** The argument as the receiving program sees it: a quoted text loses
      its quotes and half of its trailing backslashes. */
  function Unquote(a: string): (r: string)
    ensures WellFormed(a) ==> '"' !in r
  {
    if IsQuoted(a) then
      var c := a[1..|a| - 1];
      c[..|c| - TrailingRun(c) / 2]
    else a
  }

  function UnquoteAll(args: seq<string>): (r: seq<string>)
    ensures |r| == |args|
    ensures forall k :: 0 <= k < |args| ==> r[k] == Unquote(args[k])
  {
    if args == [] then [] else [Unquote(args[0])] + UnquoteAll(args[1..])
  }

  /** A run of backslashes ending inside `p` ends at the same place in
      `p + rest`. */
  lemma {:induction false} RunPrefix(p: string, rest: string)
    requires Run(p) < |p|
    ensures Run(p + rest) == Run(p)
  {
    if p[0] == '\\' {
      assert (p + rest)[1..] == p[1..] + rest;
      RunPrefix(p[1..], rest);
    }
  }

  lemma {:induction false} RunOfBackslashes(n: nat, rest: string)
    requires rest == [] || rest[0] != '\\'
    ensures Run(Backslashes(n) + rest) == n
  {
    if n > 0 {
      assert (Backslashes(n) + rest)[1..] == Backslashes(n - 1) + rest;
      RunOfBackslashes(n - 1, rest);
    } else {
      assert Backslashes(n) + rest == rest;
    }
  }

  lemma {:induction false} TrailingRunOfBackslashes(p: string, n: nat)
    ensures TrailingRun(p + Backslashes(n)) == TrailingRun(p) + n
  {
    if n > 0 {
      assert (p + Backslashes(n))[..|p| + n - 1] == p + Backslashes(n - 1);
      TrailingRunOfBackslashes(p, n - 1);
    } else {
      assert p + Backslashes(n) == p;
    }
  }

  /** A text is its part before the trailing backslashes, then those. */
  lemma {:induction false} SplitTrailingRun(c: string)
    ensures c == c[..|c| - TrailingRun(c)] + Backslashes(TrailingRun(c))
  {
    var t := TrailingRun(c);
    if t == 0 {
      assert c[..|c|] + Backslashes(0) == c;
    } else {
      var init := c[..|c| - 1];
      assert TrailingRun(c) == 1 + TrailingRun(init);
      SplitTrailingRun(init);
      var u := TrailingRun(init);
      assert init[..|init| - u] == c[..|c| - t];
      BackslashesSnoc(u);
      assert c == init + [c[|c| - 1]];
    }
  }

  lemma BackslashesSnoc(n: nat)
    ensures Backslashes(n) + ['\\'] == Backslashes(n + 1)
  {
    assert forall k :: 0 <= k < n + 1 ==> (Backslashes(n) + ['\\'])[k] == '\\';
  }

  /** A run of characters with no quote, no blank outside quotes and no
      trailing backslash is appended to the current argument. */
  lemma {:induction false} ScanRun(p: string, rest: string, cur: string, quoted: bool, started: bool)
    requires '"' !in p
    requires quoted || (' ' !in p && '\t' !in p)
    requires p == [] || p[|p| - 1] != '\\'
    ensures Scan(p + rest, cur, quoted, started) == Scan(rest, cur + p, quoted, started || p != [])
    decreases |p|
  {
    if p == [] {
      assert p + rest == rest;
      assert cur + p == cur;
    } else if p[0] == '\\' {
      var n := Run(p);
      assert p[|p| - 1] != '\\';
      assert n < |p|;
      RunPrefix(p, rest);
      assert p[n] != '"';
      assert (p + rest)[n] == p[n];
      assert (p + rest)[n..] == p[n..] + rest;
      assert (p + rest)[..n] == p[..n];
      ScanRun(p[n..], rest, cur + p[..n], quoted, true);
      assert cur + p[..n] + p[n..] == cur + p;
    } else {
      assert (p + rest)[0] == p[0];
      assert (p + rest)[1..] == p[1..] + rest;
      ScanRun(p[1..], rest, cur + [p[0]], quoted, true);
      assert cur + [p[0]] + p[1..] == cur + p;
    }
  }

  /** One step of the scan: an even run of backslashes before a quote
      leaves half of the run and toggles quoting. */
  lemma ScanEvenRunQuote(s: string, n: nat, rest: string, cur: string, quoted: bool, started: bool)
    requires s != [] && s[0] == '\\' && n == Run(s)
    requires n < |s| && s[n] == '"' && n % 2 == 0 && s[n + 1..] == rest
    requires !(quoted && rest != [] && rest[0] == '"')
    ensures Scan(s, cur, quoted, started) == Scan(rest, cur + Backslashes(n / 2), !quoted, true)
  {
  }

  lemma AfterPrefix(x: string, c: char, rest: string)
    ensures (x + ([c] + rest))[|x|] == c && (x + ([c] + rest))[|x| + 1..] == rest
  {
  }

  /** The closing quote of a quoted argument, after an even run of
      backslashes, ends the quoted part and leaves half of the run. */
  lemma ScanClosing(m: nat, rest: string, cur: string)
    requires rest == [] || rest[0] == ' '
    ensures Scan(Backslashes(2 * m) + (['"'] + rest), cur, true, true) == Scan(rest, cur + Backslashes(m), false, true)
  {
    var n := 2 * m;
    var s := Backslashes(n) + (['"'] + rest);
    AfterPrefix(Backslashes(n), '"', rest);
    if m == 0 {
      assert s == ['"'] + rest;
      assert cur + Backslashes(m) == cur;
    } else {
      RunOfBackslashes(n, ['"'] + rest);
      assert s[0] == '\\';
      ScanClosingRun(s, m, rest, cur);
    }
  }

  lemma ScanClosingRun(s: string, m: nat, rest: string, cur: string)
    requires m > 0 && s != [] && s[0] == '\\' && Run(s) == 2 * m
    requires 2 * m < |s| && s[2 * m] == '"' && s[2 * m + 1..] == rest
    requires rest == [] || rest[0] == ' '
    ensures Scan(s, cur, true, true) == Scan(rest, cur + Backslashes(m), false, true)
  {
    ScanEvenRunQuote(s, 2 * m, rest, cur, true, true);
    assert (2 * m) / 2 == m;
  }

  /** A quoted text whose part before its trailing backslashes has no
      quote is read up to its closing quote, with half of those backslashes. */
  lemma ScanQuoted(q: string, m: nat, rest: string, cur: string, started: bool)
    requires '"' !in q && (q == [] || q[|q| - 1] != '\\')
    requires rest == [] || rest[0] == ' '
    ensures Scan(['"'] + (q + (Backslashes(2 * m) + (['"'] + rest))), cur, false, started) ==
            Scan(rest, cur + q + Backslashes(m), false, true)
  {
    var after := Backslashes(2 * m) + (['"'] + rest);
    var s := ['"'] + (q + after);
    assert s[0] == '"' && s[1..] == q + after;
    ScanRun(q, after, cur, true, true);
    ScanClosing(m, rest, cur + q);
  }

  /** A well-formed quoted argument is a quote, a text `q` without quotes
      or trailing backslash, an even run of backslashes and a quote. */
  lemma QuotedParts(a: string) returns (q: string, m: nat)
    requires WellFormed(a) && IsQuoted(a)
    ensures a == ['"'] + (q + Backslashes(2 * m)) + ['"']
    ensures '"' !in q
    ensures q == [] || q[|q| - 1] != '\\'
    ensures Unquote(a) == q + Backslashes(m)
  {
    var c := a[1..|a| - 1];
    q, m := SplitEvenRun(c);
    NoQuoteInPart(c, q, Backslashes(2 * m));
    QuotedShape(a);
    HalfOfRun(q, m);
  }

  /** A text ending in an even run of backslashes, split before the run. */
  lemma SplitEvenRun(c: string) returns (q: string, m: nat)
    requires TrailingRun(c) % 2 == 0
    ensures c == q + Backslashes(2 * m) && m == TrailingRun(c) / 2
    ensures q == [] || q[|q| - 1] != '\\'
  {
    var t := TrailingRun(c);
    m := t / 2;
    assert 2 * m == t;
    q := c[..|c| - t];
    SplitTrailingRun(c);
    assert c == q + Backslashes(t);
    assert q != [] ==> q[|q| - 1] == c[|c| - t - 1];
  }

  lemma NoQuoteInPart(c: string, q: string, b: string)
    requires c == q + b && '"' !in c
    ensures '"' !in q
  {
    assert forall k :: 0 <= k < |q| ==> q[k] == c[k];
  }

  lemma HalfOfRun(q: string, m: nat)
    ensures (q + Backslashes(2 * m))[..|q| + 2 * m - m] == q + Backslashes(m)
  {
    var u := (q + Backslashes(2 * m))[..|q| + 2 * m - m];
    assert forall k :: 0 <= k < |u| ==> u[k] == (q + Backslashes(m))[k];
  }

  lemma QuotedShape(a: string)
    requires IsQuoted(a)
    ensures a == ['"'] + a[1..|a| - 1] + ['"']
  {
  }

  /** A well-formed argument is read whole, up to the next space or the end. */
  lemma ScanArgument(a: string, rest: string, cur: string, started: bool)
    requires WellFormed(a)
    requires rest == [] || rest[0] == ' '
    ensures Scan(a + rest, cur, false, started) == Scan(rest, cur + Unquote(a), false, true)
  {
    if IsQuoted(a) {
      ScanQuotedArgument(a, rest, cur, started);
    } else {
      ScanRun(a, rest, cur, false, started);
    }
  }

  lemma ScanQuotedArgument(a: string, rest: string, cur: string, started: bool)
    requires WellFormed(a) && IsQuoted(a)
    requires rest == [] || rest[0] == ' '
    ensures Scan(a + rest, cur, false, started) == Scan(rest, cur + Unquote(a), false, true)
  {
    var q, m := QuotedParts(a);
    Regroup(q, Backslashes(2 * m), rest);
    ScanQuoted(q, m, rest, cur, started);
    assert cur + q + Backslashes(m) == cur + Unquote(a);
  }

  lemma Regroup(q: string, b: string, rest: string)
    ensures ['"'] + (q + b) + ['"'] + rest == ['"'] + (q + (b + (['"'] + rest)))
  {
  }

  /** The first argument of a joined line is read on its own. */
  lemma TokenizeCons(a: string, args: seq<string>)
    requires WellFormed(a)
    ensures Tokenize(CommandText([a] + args)) == [Unquote(a)] + Tokenize(CommandText(args))
  {
    if args == [] {
      assert CommandText([a] + args) == a + [];
      ScanArgument(a, [], "", false);
    } else {
      var tail := CommandText(args);
      assert ([a] + args)[1..] == args;
      assert CommandText([a] + args) == a + (" " + tail);
      ScanArgument(a, " " + tail, "", false);
      assert (" " + tail)[1..] == tail;
    }
    assert "" + Unquote(a) == Unquote(a);
  }

  /** Joining well-formed arguments with spaces and reading the line back
      gives the arguments as the receiving program sees them. */
  lemma {:induction false} TokenizeCommandText(args: seq<string>)
    requires forall k :: 0 <= k < |args| ==> WellFormed(args[k])
    ensures Tokenize(CommandText(args)) == UnquoteAll(args)
    decreases |args|
  {
    if args != [] {
      assert args == [args[0]] + args[1..];
      TokenizeCons(args[0], args[1..]);
      TokenizeCommandText(args[1..]);
    }
  }

  /** A quoted path without quotes reads back as itself when it does not
      end in a backslash. */
  lemma QuoteWellFormed(p: string)
    requires '"' !in p && (p == [] || p[|p| - 1] != '\\')
    ensures WellFormed(Quote(p)) && Unquote(Quote(p)) == p
  {
    assert Quote(p)[1..|Quote(p)| - 1] == p;
  }

  /** `Quote` as written: a path that ends in a backslash swallows the
      closing quote. "D:\\" reads back as `D:"`. */
  lemma QuoteLosesTrailingBackslash()
    ensures Tokenize(CommandText([Quote("D:\\")])) == ["D:\""]
  {
    var s := CommandText([Quote("D:\\")]);
    var tail := "\\\"";
    assert s == ['"'] + ("D:" + tail);
    assert s[1..] == "D:" + tail;
    ScanRun("D:", tail, "", true, true);
    assert Run(tail) == 1;
    assert tail[2..] == [];
    assert "" + "D:" + Backslashes(0) + "\"" == "D:\"";
  }

  /** The quoting the receiving program expects: trailing backslashes are
      doubled, so that none of them escapes the closing quote. */
  function QuoteArgument(p: string): string {
    "\"" + p + Backslashes(TrailingRun(p)) + "\""
  }

  /** Every path without quotes, trailing backslashes included, reads back
      as itself once quoted with `QuoteArgument`. */
  lemma QuoteArgumentReadsBack(p: string)
    requires '"' !in p
    ensures WellFormed(QuoteArgument(p)) && Unquote(QuoteArgument(p)) == p
  {
    var t := TrailingRun(p);
    var c := p + Backslashes(t);
    var a := QuoteArgument(p);
    assert a == ['"'] + c + ['"'];
    assert a[1..|a| - 1] == c;
    TrailingRunOfBackslashes(p, t);
    assert '"' !in c by {
      assert forall k :: 0 <= k < |c| ==> c[k] == (if k < |p| then p[k] else '\\');
    }
    assert IsQuoted(a);
    assert TrailingRun(c) / 2 == t;
    assert Unquote(a) == c[..|c| - t];
    assert c[..|c| - t] == p;
  }

  /** A path without trailing backslashes is quoted the same both ways. */
  lemma QuoteArgumentAgrees(p: string)
    requires p == [] || p[|p| - 1] != '\\'
    ensures QuoteArgument(p) == Quote(p)
  {
    assert p + Backslashes(0) == p;
  }

  /** A flag is a bare word and reads back unchanged. */
  lemma FlagReadsBack(f: string)
    requires f in ["-i", "-o", "-e", "--export", "json", "atlas", "images"]
    ensures WellFormed(f) && Unquote(f) == f
  {
  }

  /** The built-in export flags read back unchanged. */
  lemma BuiltInReadsBack()
    ensures forall k :: 0 <= k < 6 ==>
              WellFormed(SettingsArguments(BuiltIn)[k]) &&
              Unquote(SettingsArguments(BuiltIn)[k]) == SettingsArguments(BuiltIn)[k]
  {
    var a := SettingsArguments(BuiltIn);
    forall k | 0 <= k < 6 ensures WellFormed(a[k]) && Unquote(a[k]) == a[k] {
      FlagReadsBack(a[k]);
    }
  }

  /** What the receiving program reads from the settings arguments. */
  function SettingsRead(source: SettingsSource): seq<string> {
    if source.BuiltIn? then SettingsArguments(BuiltIn) else ["-e", source.path]
  }

  /** A path the receiving program reads back exactly once quoted. */
  predicate Plain(p: string) {
    '"' !in p && (p == [] || p[|p| - 1] != '\\')
  }

  lemma SettingsReadBack(source: SettingsSource)
    requires !source.BuiltIn? ==> Plain(source.path)
    ensures Tokenize(CommandText(SettingsArguments(source))) == SettingsRead(source)
  {
    if source.BuiltIn? {
      BuiltInReadsBack();
      TokenizeCommandText(SettingsArguments(BuiltIn));
    } else {
      assert SettingsArguments(source) == ["-e", Quote(source.path)] + [];
      FlagAndPath("-e", source.path, []);
      assert CommandText([]) == [];
    }
  }

  /** A flag followed by a quoted path reads back as the flag and the path. */
  lemma FlagAndPath(flag: string, p: string, more: seq<string>)
    requires flag in ["-i", "-o", "-e"] && Plain(p)
    ensures Tokenize(CommandText([flag, Quote(p)] + more)) == [flag, p] + Tokenize(CommandText(more))
  {
    QuoteWellFormed(p);
    FlagAndArgument(flag, Quote(p), more);
  }

  /** A flag followed by a well-formed argument reads back as the flag and
      the unquoted argument. */
  lemma FlagAndArgument(flag: string, a: string, more: seq<string>)
    requires flag in ["-i", "-o", "-e"] && WellFormed(a)
    ensures Tokenize(CommandText([flag, a] + more)) == [flag, Unquote(a)] + Tokenize(CommandText(more))
  {
    FlagReadsBack(flag);
    assert [flag, a] + more == [flag] + ([a] + more);
    TokenizeCons(flag, [a] + more);
    TokenizeCons(a, more);
  }

  lemma ExportLineReadsBack(input: string, output: string, source: SettingsSource)
    requires Plain(input) && Plain(output)
    requires !source.BuiltIn? ==> Plain(source.path)
    ensures Tokenize(CommandText(["-i", Quote(input), "-o", Quote(output)] + SettingsArguments(source))) ==
            ["-i", input, "-o", output] + SettingsRead(source)
  {
    var tail := SettingsArguments(source);
    assert ["-i", Quote(input), "-o", Quote(output)] + tail == ["-i", Quote(input)] + (["-o", Quote(output)] + tail);
    FlagAndPath("-i", input, ["-o", Quote(output)] + tail);
    FlagAndPath("-o", output, tail);
    SettingsReadBack(source);
  }

  /** The export command line reads back as the staged input, the staged
      output and the settings arguments, each path exactly as given. */
  lemma ExportCommandReadsBack(spineFile: string, outputDir: string, tempInput: string, tempOutputDir: string,
                               source: SettingsSource)
    requires Plain(spineFile) && Plain(outputDir) && Plain(tempInput) && Plain(tempOutputDir)
    requires !source.BuiltIn? ==> Plain(source.path)
    ensures Tokenize(CommandText(ExportArguments(spineFile, outputDir, tempInput, tempOutputDir, source))) ==
            ["-i", Staged(spineFile, tempInput), "-o", Staged(outputDir, tempOutputDir)] + SettingsRead(source)
  {
    ExportLineReadsBack(Staged(spineFile, tempInput), Staged(outputDir, tempOutputDir), source);
  }

  /** The conversion command line reads back as the three paths. */
  lemma ConvertCommandReadsBack(inputPath: string, outputDir: string, settingsPath: string)
    requires Plain(inputPath) && Plain(outputDir) && Plain(settingsPath)
    ensures Tokenize(CommandText(ConvertArguments(inputPath, outputDir, settingsPath))) ==
            ["-i", inputPath, "-o", outputDir, "-e", settingsPath]
  {
    var last := ["-e", Quote(settingsPath)];
    assert ConvertArguments(inputPath, outputDir, settingsPath) ==
           ["-i", Quote(inputPath)] + (["-o", Quote(outputDir)] + (last + []));
    FlagAndPath("-i", inputPath, ["-o", Quote(outputDir)] + (last + []));
    FlagAndPath("-o", outputDir, last + []);
    FlagAndPath("-e", settingsPath, []);
    assert CommandText([]) == [];
  }

  /** The conversion argument list with every path quoted by
      `QuoteArgument`; it equals `ConvertArguments` on paths that do not
      end in a backslash. */
  function QuotedConvertArguments(inputPath: string, outputDir: string, settingsPath: string): (r: seq<string>)
    ensures |r| == 6
    ensures (Plain(inputPath) && Plain(outputDir) && Plain(settingsPath)) ==>
              r == ConvertArguments(inputPath, outputDir, settingsPath)
  {
    QuoteArgumentAgreesOnPlain(inputPath);
    QuoteArgumentAgreesOnPlain(outputDir);
    QuoteArgumentAgreesOnPlain(settingsPath);
    ["-i", QuoteArgument(inputPath), "-o", QuoteArgument(outputDir), "-e", QuoteArgument(settingsPath)]
  }

  lemma QuoteArgumentAgreesOnPlain(p: string)
    ensures Plain(p) ==> QuoteArgument(p) == Quote(p)
  {
    if Plain(p) {
      QuoteArgumentAgrees(p);
    }
  }

  /** A flag followed by a path quoted with `QuoteArgument` reads back as
      the flag and the path. */
  lemma FlagAndQuotedPath(flag: string, p: string, more: seq<string>)
    requires flag in ["-i", "-o", "-e"] && '"' !in p
    ensures Tokenize(CommandText([flag, QuoteArgument(p)] + more)) == [flag, p] + Tokenize(CommandText(more))
  {
    QuoteArgumentReadsBack(p);
    FlagAndArgument(flag, QuoteArgument(p), more);
  }

  /** With the corrected quoting, the conversion command line reads back
      as the three paths for every path without quotes, a drive root such
      as "D:\" included. */
  lemma QuotedConvertCommandReadsBack(inputPath: string, outputDir: string, settingsPath: string)
    requires '"' !in inputPath && '"' !in outputDir && '"' !in settingsPath
    ensures Tokenize(CommandText(QuotedConvertArguments(inputPath, outputDir, settingsPath))) ==
            ["-i", inputPath, "-o", outputDir, "-e", settingsPath]
  {
    var last := ["-e", QuoteArgument(settingsPath)];
    assert QuotedConvertArguments(inputPath, outputDir, settingsPath) ==
           ["-i", QuoteArgument(inputPath)] + (["-o", QuoteArgument(outputDir)] + (last + []));
    FlagAndQuotedPath("-i", inputPath, ["-o", QuoteArgument(outputDir)] + (last + []));
    FlagAndQuotedPath("-o", outputDir, last + []);
    FlagAndQuotedPath("-e", settingsPath, []);
    assert CommandText([]) == [];
  }
}
