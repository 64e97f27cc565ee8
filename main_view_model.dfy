/**
 * The main window's view-model: the ordered list of selected project files
 * and its "primary" path, the texts derived from them, the status line and
 * the counting loop of a batch conversion.
 */
module ViewModels {
  import opened Wrappers
  import Text
  import Numerals
  import Paths
  import Models

  // ---------------------------------------------------------------------
  // The file list
  // ---------------------------------------------------------------------

  /** No path occurs twice. */
  predicate Distinct(s: seq<string>) {
    forall i, j :: 0 <= i < j < |s| ==> s[i] != s[j]
  }

  /** Position of the first occurrence of `x` in `s`. */
  function FirstIndex(s: seq<string>, x: string): (i: nat)
    requires x in s
    ensures i < |s| && s[i] == x
    ensures forall k :: 0 <= k < i ==> s[k] != x
  {
    if s[0] == x then 0 else 1 + FirstIndex(s[1..], x)
  }

  /** `FirstOrDefault() ?? string.Empty`. */
  function FirstOrEmpty(s: seq<string>): (r: string)
    ensures s == [] ==> r == ""
    ensures s != [] ==> r == s[0]
  {
    if s == [] then "" else s[0]
  }

  /** A list that was never created reads as the empty list. */
  function OrEmpty(paths: Option<seq<string>>): seq<string> {
    match paths
    case None => []
    case Some(s) => s
  }

  /** One step of the `AddSpineFiles` loop: `Add` unless `Contains`. */
  function AddIfAbsent(list: seq<string>, p: string): (r: seq<string>)
    ensures p in r
  {
    if p in list then list else list + [p]
  }

  /** The list after the `AddSpineFiles` loop has seen `files`, in order. */
  function AppendNew(list: seq<string>, files: seq<string>): seq<string>
    decreases |files|
  {
    if files == [] then list
    else AddIfAbsent(AppendNew(list, files[..|files| - 1]), files[|files| - 1])
  }

  /** The entries already in the list keep their places. */
  lemma {:induction false} AppendNewKeepsList(list: seq<string>, files: seq<string>)
    ensures |list| <= |AppendNew(list, files)|
    ensures AppendNew(list, files)[..|list|] == list
    decreases |files|
  {
    if files != [] {
      AppendNewKeepsList(list, files[..|files| - 1]);
    }
  }

  /** Afterwards the list holds exactly the old entries and the inputs. */
  lemma {:induction false} AppendNewMembers(list: seq<string>, files: seq<string>)
    ensures forall x :: x in AppendNew(list, files) <==> x in list || x in files
    decreases |files|
  {
    if files != [] {
      var init := files[..|files| - 1];
      AppendNewMembers(list, init);
      assert files == init + [files[|files| - 1]];
    }
  }

  /** What is appended is an input path that was not in the list before. */
  lemma {:induction false} AppendNewOnlyNew(list: seq<string>, files: seq<string>)
    ensures forall k :: |list| <= k < |AppendNew(list, files)| ==>
      AppendNew(list, files)[k] in files && AppendNew(list, files)[k] !in list
    decreases |files|
  {
    if files != [] {
      var init := files[..|files| - 1];
      var p := files[|files| - 1];
      var before := AppendNew(list, init);
      AppendNewOnlyNew(list, init);
      AppendNewKeepsList(list, init);
      AppendNewMembers(list, init);
      assert files == init + [p];
      forall k | |list| <= k < |AppendNew(list, files)|
        ensures AppendNew(list, files)[k] in files && AppendNew(list, files)[k] !in list
      {
        if k < |before| {
          assert AppendNew(list, files)[k] == before[k];
          assert before[k] in init;
        } else {
          assert AppendNew(list, files)[k] == p;
        }
      }
    }
  }

  /** Adding never creates a duplicate, even when the input repeats a path. */
  lemma {:induction false} AppendNewDistinct(list: seq<string>, files: seq<string>)
    requires Distinct(list)
    ensures Distinct(AppendNew(list, files))
    decreases |files|
  {
    if files != [] {
      AppendNewDistinct(list, files[..|files| - 1]);
    }
  }

  /** The appended paths follow the input order: each comes after the
      previous one's first position in the input. */
  lemma {:induction false} AppendNewInInputOrder(list: seq<string>, files: seq<string>)
    ensures forall i, j :: |list| <= i < j < |AppendNew(list, files)| ==>
      AppendNew(list, files)[i] in files && AppendNew(list, files)[j] in files &&
      FirstIndex(files, AppendNew(list, files)[i]) < FirstIndex(files, AppendNew(list, files)[j])
    decreases |files|
  {
    AppendNewOnlyNew(list, files);
    if files != [] {
      var init := files[..|files| - 1];
      var p := files[|files| - 1];
      var before := AppendNew(list, init);
      var after := AppendNew(list, files);
      AppendNewInInputOrder(list, init);
      AppendNewOnlyNew(list, init);
      AppendNewKeepsList(list, init);
      AppendNewMembers(list, init);
      assert files == init + [p];
      forall x | x in init
        ensures x in files && FirstIndex(files, x) == FirstIndex(init, x)
      {
        FirstIndexOfPrefix(files, init, x);
      }
      forall i, j | |list| <= i < j < |after|
        ensures FirstIndex(files, after[i]) < FirstIndex(files, after[j])
      {
        assert after[i] == before[i];
        assert after[i] in init;
        if j < |before| {
          assert after[j] == before[j];
        } else {
          assert after[j] == p && p !in before;
          assert p !in init;
          FirstIndexOfLast(files, p);
        }
      }
    }
  }

  lemma FirstIndexOfPrefix(s: seq<string>, init: seq<string>, x: string)
    requires |init| <= |s| && init == s[..|init|] && x in init
    ensures x in s && FirstIndex(s, x) == FirstIndex(init, x)
  {
    var i := FirstIndex(init, x);
    assert s[i] == x;
    assert forall k :: 0 <= k < |init| ==> s[k] == init[k];
  }

  lemma FirstIndexOfLast(s: seq<string>, x: string)
    requires s != [] && s[|s| - 1] == x && x !in s[..|s| - 1]
    ensures FirstIndex(s, x) == |s| - 1
  {
    assert forall k :: 0 <= k < |s| - 1 ==> s[k] == s[..|s| - 1][k];
  }

  /** `ObservableCollection.Remove`: drops the first occurrence of `p`, if any. */
  function RemoveFirst(list: seq<string>, p: string): (r: seq<string>)
    ensures p !in list ==> r == list
    ensures p in list ==> r == list[..FirstIndex(list, p)] + list[FirstIndex(list, p) + 1..]
  {
    if list == [] then []
    else if list[0] == p then list[1..]
    else
      var rest := RemoveFirst(list[1..], p);
      RemoveFirstCons(list, p, rest);
      [list[0]] + rest
  }

  /** The step of `RemoveFirst` past a head that is not `p`. */
  lemma RemoveFirstCons(list: seq<string>, p: string, rest: seq<string>)
    requires list != [] && list[0] != p
    requires p !in list[1..] ==> rest == list[1..]
    requires p in list[1..] ==>
      rest == list[1..][..FirstIndex(list[1..], p)] + list[1..][FirstIndex(list[1..], p) + 1..]
    ensures p !in list ==> [list[0]] + rest == list
    ensures p in list ==> [list[0]] + rest == list[..FirstIndex(list, p)] + list[FirstIndex(list, p) + 1..]
  {
    if p in list {
      assert p in list[1..];
      FirstIndexCons(list, p);
    } else {
      assert list == [list[0]] + list[1..];
    }
  }

  lemma FirstIndexCons(list: seq<string>, p: string)
    requires list != [] && list[0] != p && p in list[1..]
    ensures FirstIndex(list, p) == FirstIndex(list[1..], p) + 1
    ensures list[..FirstIndex(list, p)] == [list[0]] + list[1..][..FirstIndex(list[1..], p)]
    ensures list[FirstIndex(list, p) + 1..] == list[1..][FirstIndex(list[1..], p) + 1..]
  {
  }

  /** Removing a present path takes away exactly one occurrence of it. */
  lemma RemoveFirstOnce(list: seq<string>, p: string)
    requires p in list
    ensures |RemoveFirst(list, p)| == |list| - 1
    ensures multiset(RemoveFirst(list, p)) == multiset(list) - multiset{p}
  {
    var i := FirstIndex(list, p);
    var before, after := list[..i], list[i + 1..];
    assert list == before + [p] + after;
    assert RemoveFirst(list, p) == before + after;
    assert multiset(list) == multiset(before) + multiset{p} + multiset(after);
  }

  // ---------------------------------------------------------------------
  // Derived texts
  // ---------------------------------------------------------------------

  const NotSelected: string := "未选择"
  const SelectedPrefix: string := "已选择 "
  const SelectedSuffix: string := " 个文件"

  /** `SpineFilePathDisplay`. */
  function FilePathDisplay(paths: Option<seq<string>>): (r: string)
    ensures OrEmpty(paths) == [] ==> r == NotSelected
    ensures |OrEmpty(paths)| == 1 ==> r == OrEmpty(paths)[0]
    ensures |OrEmpty(paths)| > 1 ==>
      |r| > |SelectedPrefix| + |SelectedSuffix| &&
      r[..|SelectedPrefix|] == SelectedPrefix && r[|r| - |SelectedSuffix|..] == SelectedSuffix
  {
    var s := OrEmpty(paths);
    if s == [] then NotSelected
    else if |s| == 1 then s[0]
    else SelectedPrefix + Numerals.NatText(|s|) + SelectedSuffix
  }

  /** With several files the display names how many there are. */
  lemma DisplayCountsFiles(paths: Option<seq<string>>)
    requires |OrEmpty(paths)| > 1
    ensures var r := FilePathDisplay(paths);
      Numerals.ParseNat(r[|SelectedPrefix|..|r| - |SelectedSuffix|]) == Some(|OrEmpty(paths)|)
  {
    var r := FilePathDisplay(paths);
    assert r[|SelectedPrefix|..|r| - |SelectedSuffix|] == Numerals.NatText(|OrEmpty(paths)|);
    Numerals.ParseNatText(|OrEmpty(paths)|);
  }

  /** `HasSpineFiles`: the list exists and is not empty. */
  function HasFiles(paths: Option<seq<string>>): (r: bool)
    ensures r <==> paths.Some? && |paths.value| > 0
  {
    OrEmpty(paths) != []
  }

  /** `HasMultipleSpineFiles`: the list exists and has more than one entry. */
  function HasMultipleFiles(paths: Option<seq<string>>): (r: bool)
    ensures r ==> HasFiles(paths)
    ensures r <==> paths.Some? && |paths.value| > 1
  {
    |OrEmpty(paths)| > 1
  }

  /** The display and the two flags agree: no files reads "not selected", one
      file reads as that path and several read as a count. */
  lemma DisplayMatchesFlags(paths: Option<seq<string>>)
    ensures !HasFiles(paths) ==> FilePathDisplay(paths) == NotSelected
    ensures HasFiles(paths) && !HasMultipleFiles(paths) ==> FilePathDisplay(paths) == paths.value[0]
    ensures HasMultipleFiles(paths) ==> FilePathDisplay(paths)[..|SelectedPrefix|] == SelectedPrefix
  {
  }

  const MissingExecutable: string := "请先选择 Spine.com 可执行文件"
  const MissingProjectFile: string := "请选择要转换的 Spine 项目文件"
  const MissingVersion: string := "请选择目标版本"
  const ReadyToConvert: string := "准备就绪，可以开始转换"

  /** `UpdateStatusMessage`: the first missing prerequisite, in the order
      executable, project file, target version. */
  function StatusFor(executableExists: bool, projectExists: bool, hasVersion: bool): (r: string)
    ensures !executableExists ==> r == MissingExecutable
  {
    if !executableExists then MissingExecutable
    else if !projectExists then MissingProjectFile
    else if !hasVersion then MissingVersion
    else ReadyToConvert
  }

  /** The status names each prerequisite exactly when every earlier one is met
      and that one is not; it reads "ready" exactly when all three are met. */
  lemma StatusPrecedence(executableExists: bool, projectExists: bool, hasVersion: bool)
    ensures StatusFor(executableExists, projectExists, hasVersion) == MissingExecutable <==> !executableExists
    ensures StatusFor(executableExists, projectExists, hasVersion) == MissingProjectFile <==>
      executableExists && !projectExists
    ensures StatusFor(executableExists, projectExists, hasVersion) == MissingVersion <==>
      executableExists && projectExists && !hasVersion
    ensures StatusFor(executableExists, projectExists, hasVersion) == ReadyToConvert <==>
      executableExists && projectExists && hasVersion
  {
    assert MissingExecutable[1] != MissingProjectFile[1];
    assert MissingExecutable[1] != MissingVersion[1];
    assert MissingExecutable[0] != ReadyToConvert[0];
    assert MissingProjectFile[3] != MissingVersion[3];
    assert MissingProjectFile[0] != ReadyToConvert[0];
    assert MissingVersion[0] != ReadyToConvert[0];
  }

  /** `CanConvert`. */
  function ConvertAllowed(ready: bool, paths: Option<seq<string>>, hasVersion: bool, converting: bool): (r: bool)
    ensures r <==> ready && paths.Some? && |paths.value| > 0 && hasVersion && !converting
  {
    ready && HasFiles(paths) && hasVersion && !converting
  }

  // ---------------------------------------------------------------------
  // The checks before a batch conversion
  // ---------------------------------------------------------------------

  const NotReady: string := "请确保已选择 Spine 可执行文件和项目文件"
  const NoFiles: string := "请选择至少一个 Spine 项目文件"
  const MissingFilesPrefix: string := "以下文件不存在："
  const ListSeparator: string := ", "
  const NoOutputDirectory: string := "无法确定输出目录"

  /** `string.IsNullOrWhiteSpace` on a non-null string. */
  predicate Blank(s: string) {
    forall i :: 0 <= i < |s| ==> Text.IsWhiteSpace(s[i])
  }

  /** The paths that are empty or do not exist, in list order. */
  function InvalidFiles(paths: seq<string>, fs: Paths.FileSystem): (r: seq<string>)
    ensures |r| <= |paths|
    ensures forall x :: x in r <==> x in paths && (x == "" || !fs.Exists(x))
  {
    if paths == [] then []
    else
      var rest := InvalidFiles(paths[1..], fs);
      assert forall x :: x in paths <==> x == paths[0] || x in paths[1..];
      if paths[0] == "" || !fs.Exists(paths[0]) then [paths[0]] + rest else rest
  }

  /** The status naming the missing files by file name, comma separated. */
  function MissingFilesMessage(invalid: seq<string>): string {
    MissingFilesPrefix + Text.Join(FileNames(invalid), ListSeparator)
  }

  /** `Select(Path.GetFileName)`. */
  function FileNames(paths: seq<string>): (r: seq<string>)
    ensures |r| == |paths|
  {
    if paths == [] then [] else [Paths.FileName(paths[0])] + FileNames(paths[1..])
  }

  /** The `k`-th name is the file name of the `k`-th path. */
  lemma {:induction false} FileNameAt(paths: seq<string>, k: nat)
    requires k < |paths|
    ensures FileNames(paths)[k] == Paths.FileName(paths[k])
  {
    if k > 0 {
      FileNameAt(paths[1..], k - 1);
    }
  }

  /** Where the name of the `k`-th missing file starts in the message. */
  function NameOffset(invalid: seq<string>, k: nat): nat
    requires k < |invalid|
  {
    |MissingFilesPrefix| + Text.JoinOffset(FileNames(invalid), ListSeparator, k)
  }

  /** The message starts with its prefix and names every missing file, each
      at its place in the comma-separated list. */
  lemma MissingFilesNamed(invalid: seq<string>, k: nat)
    requires k < |invalid|
    ensures Text.StartsWith(MissingFilesMessage(invalid), MissingFilesPrefix)
    ensures FileNames(invalid)[k] == Paths.FileName(invalid[k])
    ensures Text.OccursAt(MissingFilesMessage(invalid), FileNames(invalid)[k], NameOffset(invalid, k))
  {
    NamesAfterPrefix(MissingFilesPrefix, FileNames(invalid), ListSeparator, k);
    FileNameAt(invalid, k);
  }

  lemma NamesAfterPrefix(prefix: string, names: seq<string>, sep: string, k: nat)
    requires k < |names|
    ensures Text.StartsWith(prefix + Text.Join(names, sep), prefix)
    ensures Text.OccursAt(prefix + Text.Join(names, sep), names[k], |prefix| + Text.JoinOffset(names, sep, k))
  {
    var joined := Text.Join(names, sep);
    var i := Text.JoinOffset(names, sep, k);
    Text.JoinPart(names, sep, k);
    assert (prefix + joined)[|prefix| + i..|prefix| + i + |names[k]|] == joined[i..i + |names[k]|];
    assert (prefix + joined)[..|prefix|] == prefix;
  }

  /** The output directory a conversion would use: the configured one, or the
      project file's directory when none is configured. */
  function OutputDirectoryFor(configured: string, primary: string): string {
    if Blank(configured) then Paths.DirectoryName(primary) else configured
  }

  /** With no configured directory, a project file `Combine(d, name)` is
      converted into `d`; a configured directory is used as it is. */
  lemma OutputDirectoryOfProject(configured: string, d: string, name: string)
    requires name != [] && forall k :: 0 <= k < |name| ==> !Paths.IsSeparator(name[k])
    requires Paths.RootLength(d) < |d| && !Paths.IsSeparator(d[|d| - 1]) && Paths.Normalized(d)
    ensures Blank(configured) ==> OutputDirectoryFor(configured, Paths.Combine(d, name)) == d
    ensures !Blank(configured) ==> OutputDirectoryFor(configured, Paths.Combine(d, name)) == configured
  {
    Paths.DirectoryNameOfCombine(d, name);
  }

  /** With no configured directory, a project file directly under a drive
      root is converted into that root, which is not blank; a project path
      that is only a root leaves no directory, and the conversion is refused. */
  lemma OutputDirectoryAtRoot(configured: string, drive: char, name: string)
    requires Blank(configured)
    requires Paths.IsDriveLetter(drive)
    requires name != [] && forall k :: 0 <= k < |name| ==> !Paths.IsSeparator(name[k])
    ensures OutputDirectoryFor(configured, [drive, ':', '\\'] + name) == [drive, ':', '\\']
    ensures !Blank(OutputDirectoryFor(configured, [drive, ':', '\\'] + name))
    ensures Blank(OutputDirectoryFor(configured, [drive, ':', '\\']))
  {
    Paths.DirectoryNameOfRootFile(drive, '\\', name);
    Paths.DirectoryNameOfRoot([drive, ':', '\\']);
    assert !Text.IsWhiteSpace(':');
  }

  /** The status with which `StartConversionAsync` refuses to start, in the
      order of its checks, or `None` when it goes ahead. */
  function Refusal(ready: bool, hasVersion: bool, paths: Option<seq<string>>, primary: string,
                   outputDirectory: string, fs: Paths.FileSystem): (r: Option<string>)
    ensures r.None? <==>
      ready && hasVersion && HasFiles(paths) &&
      (forall i :: 0 <= i < |paths.value| ==> paths.value[i] != "" && fs.Exists(paths.value[i])) &&
      !Blank(OutputDirectoryFor(outputDirectory, primary))
    ensures !ready ==> r == Some(NotReady)
  {
    if !ready then Some(NotReady)
    else if !hasVersion then Some(MissingVersion)
    else if !HasFiles(paths) then Some(NoFiles)
    else
      var invalid := InvalidFiles(paths.value, fs);
      assert invalid != [] ==> invalid[0] in paths.value;
      assert forall i :: 0 <= i < |paths.value| ==> paths.value[i] in paths.value;
      if invalid != [] then Some(MissingFilesMessage(invalid))
      else if Blank(outputDirectory) && Blank(Paths.DirectoryName(primary)) then Some(NoOutputDirectory)
      else None
  }

  /** When the conversion command is enabled, the first three checks pass, and
      the status line reads "ready". */
  lemma ConvertAllowedPassesChecks(ready: bool, exeExists: bool, projectExists: bool,
                                   paths: Option<seq<string>>, hasVersion: bool, converting: bool,
                                   primary: string, outputDirectory: string, fs: Paths.FileSystem)
    requires ready <==> exeExists && projectExists
    requires ConvertAllowed(ready, paths, hasVersion, converting)
    ensures StatusFor(exeExists, projectExists, hasVersion) == ReadyToConvert
    ensures var r := Refusal(ready, hasVersion, paths, primary, outputDirectory, fs);
      r.None? || r == Some(NoOutputDirectory) || r.value[..|MissingFilesPrefix|] == MissingFilesPrefix
  {
  }

  // ---------------------------------------------------------------------
  // Counting a batch
  // ---------------------------------------------------------------------

  /** How many of the first `n` conversions succeeded. */
  function Succeeded(converted: nat -> bool, n: nat): (r: nat)
    ensures r <= n
  {
    if n == 0 then 0 else Succeeded(converted, n - 1) + (if converted(n - 1) then 1 else 0)
  }

  /** All succeeded exactly when the count is `n`; none did exactly when it is 0. */
  lemma {:induction false} SucceededBounds(converted: nat -> bool, n: nat)
    ensures Succeeded(converted, n) == n <==> forall i :: 0 <= i < n ==> converted(i)
    ensures Succeeded(converted, n) == 0 <==> forall i :: 0 <= i < n ==> !converted(i)
  {
    if n > 0 {
      SucceededBounds(converted, n - 1);
      assert Succeeded(converted, n - 1) <= n - 1;
      if converted(n - 1) {
        assert Succeeded(converted, n) == Succeeded(converted, n - 1) + 1;
      } else {
        assert Succeeded(converted, n) == Succeeded(converted, n - 1);
      }
    }
  }

  /** The final status of a batch. */
  function Summary(successes: nat, failures: nat): string {
    SummaryPrefix + Numerals.NatText(successes) + SummaryMiddle + Numerals.NatText(failures)
  }

  const SummaryPrefix: string := "批量转换完成! 成功: "
  const SummaryMiddle: string := ", 失败: "

  /** The length of the run of digits that starts `s`. */
  function DigitRun(s: string): nat {
    if s == [] || !Numerals.IsDigit(s[0]) then 0 else 1 + DigitRun(s[1..])
  }

  lemma {:induction false} DigitRunOf(a: string, u: string)
    requires forall i :: 0 <= i < |a| ==> Numerals.IsDigit(a[i])
    requires u != [] && !Numerals.IsDigit(u[0])
    ensures DigitRun(a + u) == |a|
  {
    if a == [] {
      assert a + u == u;
    } else {
      assert (a + u)[1..] == a[1..] + u;
      DigitRunOf(a[1..], u);
    }
  }

  /** Two digit strings followed by non-digits in the same text are equal. */
  lemma DigitsEndAtSame(a: string, b: string, u: string, v: string)
    requires a + u == b + v
    requires forall i :: 0 <= i < |a| ==> Numerals.IsDigit(a[i])
    requires forall i :: 0 <= i < |b| ==> Numerals.IsDigit(b[i])
    requires u != [] && !Numerals.IsDigit(u[0]) && v != [] && !Numerals.IsDigit(v[0])
    ensures a == b && u == v
  {
    DigitRunOf(a, u);
    DigitRunOf(b, v);
    assert a == (a + u)[..|a|];
    assert b == (b + v)[..|b|];
    assert u == (a + u)[|a|..];
    assert v == (b + v)[|b|..];
  }

  /** The summary tells both counts: different counts give different texts. */
  lemma SummaryDistinguishes(s1: nat, f1: nat, s2: nat, f2: nat)
    requires Summary(s1, f1) == Summary(s2, f2)
    ensures s1 == s2 && f1 == f2
  {
    var a, b := Numerals.NatText(s1), Numerals.NatText(s2);
    var x, y := Numerals.NatText(f1), Numerals.NatText(f2);
    assert SummaryPrefix + a + SummaryMiddle + x == SummaryPrefix + (a + (SummaryMiddle + x));
    assert SummaryPrefix + b + SummaryMiddle + y == SummaryPrefix + (b + (SummaryMiddle + y));
    assert a + (SummaryMiddle + x) == (SummaryPrefix + (a + (SummaryMiddle + x)))[|SummaryPrefix|..];
    assert b + (SummaryMiddle + y) == (SummaryPrefix + (b + (SummaryMiddle + y)))[|SummaryPrefix|..];
    DigitsEndAtSame(a, b, SummaryMiddle + x, SummaryMiddle + y);
    assert SummaryMiddle + x == SummaryMiddle + y;
    assert x == (SummaryMiddle + x)[|SummaryMiddle|..];
    assert y == (SummaryMiddle + y)[|SummaryMiddle|..];
    Numerals.ParseNatText(s1);
    Numerals.ParseNatText(s2);
    Numerals.ParseNatText(f1);
    Numerals.ParseNatText(f2);
  }

  // ---------------------------------------------------------------------
  // The view-model
  // ---------------------------------------------------------------------

  /** `MainViewModel`, restricted to the state the modelled commands touch.
      `outputDirectory` is the `OutputDirectory` of its conversion settings;
      the selected target version is kept as its version text. */
  class MainViewModel {
    const currentAsset: Models.SpineAsset
    var selectedTargetVersion: Option<string>
    var isConverting: bool
    var statusMessage: string
    var outputDirectory: string

    constructor ()
      ensures fresh(currentAsset)
      ensures currentAsset.spineFilePaths == None && currentAsset.spineFilePath == ""
      ensures currentAsset.spineExecutablePath == ""
      ensures selectedTargetVersion == None && !isConverting && outputDirectory == ""
      ensures statusMessage == MissingExecutable
    {
      currentAsset := new Models.SpineAsset();
      selectedTargetVersion := None;
      isConverting := false;
      statusMessage := MissingExecutable;
      outputDirectory := "";
    }

    function SpineFilePathDisplay(): string
      reads currentAsset
    {
      FilePathDisplay(currentAsset.spineFilePaths)
    }

    function HasSpineFiles(): bool
      reads currentAsset
    {
      HasFiles(currentAsset.spineFilePaths)
    }

    function HasMultipleSpineFiles(): bool
      reads currentAsset
    {
      HasMultipleFiles(currentAsset.spineFilePaths)
    }

    function CanConvert(fs: Paths.FileSystem): bool
      reads this, currentAsset
    {
      ConvertAllowed(currentAsset.IsReady(fs), currentAsset.spineFilePaths,
                     selectedTargetVersion.Some?, isConverting)
    }

    /** The status `UpdateStatusMessage` would show now. */
    function Status(fs: Paths.FileSystem): string
      reads this, currentAsset
    {
      StatusFor(currentAsset.IsSpineExecutableExists(fs), currentAsset.IsSpineFileExists(fs),
                selectedTargetVersion.Some?)
    }

    method UpdateStatusMessage(fs: Paths.FileSystem)
      modifies this
      ensures statusMessage == Status(fs)
      ensures selectedTargetVersion == old(selectedTargetVersion)
      ensures isConverting == old(isConverting) && outputDirectory == old(outputDirectory)
    {
      if !currentAsset.IsSpineExecutableExists(fs) {
        statusMessage := MissingExecutable;
      } else if !currentAsset.IsSpineFileExists(fs) {
        statusMessage := MissingProjectFile;
      } else if selectedTargetVersion == None {
        statusMessage := MissingVersion;
      } else {
        statusMessage := ReadyToConvert;
      }
    }

    /** `AddSpineFiles`: appends the paths not yet listed, then makes the first
        listed path primary when there was no primary path. */
    method AddSpineFiles(files: seq<string>, fs: Paths.FileSystem)
      modifies this, currentAsset
      ensures currentAsset.spineFilePaths ==
        Some(AppendNew(OrEmpty(old(currentAsset.spineFilePaths)), files))
      ensures old(currentAsset.spineFilePath) != "" ==>
        currentAsset.spineFilePath == old(currentAsset.spineFilePath)
      ensures old(currentAsset.spineFilePath) == "" ==>
        currentAsset.spineFilePath == FirstOrEmpty(currentAsset.spineFilePaths.value)
      ensures currentAsset.Details() ==
        if old(currentAsset.spineFilePath) == "" then
          Models.DetailsAfter(currentAsset.spineFilePath, fs, old(currentAsset.Details()))
        else old(currentAsset.Details())
      ensures currentAsset.version == old(currentAsset.version)
      ensures currentAsset.spineExecutablePath == old(currentAsset.spineExecutablePath)
      ensures statusMessage == Status(fs)
      ensures selectedTargetVersion == old(selectedTargetVersion)
      ensures isConverting == old(isConverting) && outputDirectory == old(outputDirectory)
    {
      if currentAsset.spineFilePaths == None {
        currentAsset.spineFilePaths := Some([]);
      }
      ghost var start := currentAsset.spineFilePaths.value;
      for i := 0 to |files|
        modifies currentAsset
        invariant currentAsset.spineFilePaths == Some(AppendNew(start, files[..i]))
        invariant currentAsset.spineFilePath == old(currentAsset.spineFilePath)
        invariant currentAsset.spineExecutablePath == old(currentAsset.spineExecutablePath)
        invariant currentAsset.Details() == old(currentAsset.Details())
        invariant currentAsset.version == old(currentAsset.version)
      {
        assert files[..i + 1][..i] == files[..i];
        if files[i] !in currentAsset.spineFilePaths.value {
          currentAsset.spineFilePaths := Some(currentAsset.spineFilePaths.value + [files[i]]);
        }
      }
      assert files[..|files|] == files;
      if currentAsset.spineFilePath == "" {
        currentAsset.SetSpineFilePath(FirstOrEmpty(currentAsset.spineFilePaths.value), fs);
      }
      UpdateStatusMessage(fs);
    }

    /** `RemoveSpineFile`: removes the first occurrence of a listed path and, if
        it was the primary path, makes the first remaining path primary. A path
        that is not listed changes nothing. */
    method RemoveSpineFile(path: string, fs: Paths.FileSystem)
      modifies this, currentAsset
      ensures old(currentAsset.spineFilePaths).None? || path !in old(currentAsset.spineFilePaths).value ==>
        currentAsset.spineFilePaths == old(currentAsset.spineFilePaths) &&
        currentAsset.spineFilePath == old(currentAsset.spineFilePath) &&
        currentAsset.Details() == old(currentAsset.Details()) &&
        statusMessage == old(statusMessage)
      ensures old(currentAsset.spineFilePaths).Some? && path in old(currentAsset.spineFilePaths).value ==>
        currentAsset.spineFilePaths == Some(RemoveFirst(old(currentAsset.spineFilePaths).value, path)) &&
        currentAsset.spineFilePath ==
          (if old(currentAsset.spineFilePath) == path then FirstOrEmpty(currentAsset.spineFilePaths.value)
           else old(currentAsset.spineFilePath)) &&
        currentAsset.Details() ==
          (if old(currentAsset.spineFilePath) == path then
             Models.DetailsAfter(currentAsset.spineFilePath, fs, old(currentAsset.Details()))
           else old(currentAsset.Details())) &&
        statusMessage == Status(fs)
      ensures currentAsset.version == old(currentAsset.version)
      ensures currentAsset.spineExecutablePath == old(currentAsset.spineExecutablePath)
      ensures selectedTargetVersion == old(selectedTargetVersion)
      ensures isConverting == old(isConverting) && outputDirectory == old(outputDirectory)
    {
      if currentAsset.spineFilePaths.Some? && path in currentAsset.spineFilePaths.value {
        currentAsset.spineFilePaths := Some(RemoveFirst(currentAsset.spineFilePaths.value, path));
        if currentAsset.spineFilePath == path {
          currentAsset.SetSpineFilePath(FirstOrEmpty(currentAsset.spineFilePaths.value), fs);
        }
        UpdateStatusMessage(fs);
      }
    }

    /** `ClearSpineFiles`: an existing list is emptied and the primary path
        cleared; a list that was never created is left alone. */
    method ClearSpineFiles(fs: Paths.FileSystem)
      modifies this, currentAsset
      ensures old(currentAsset.spineFilePaths).None? ==>
        currentAsset.spineFilePaths == None &&
        currentAsset.spineFilePath == old(currentAsset.spineFilePath) &&
        statusMessage == old(statusMessage)
      ensures old(currentAsset.spineFilePaths).Some? ==>
        currentAsset.spineFilePaths == Some([]) && currentAsset.spineFilePath == "" &&
        statusMessage == Status(fs)
      ensures currentAsset.Details() == old(currentAsset.Details())
      ensures currentAsset.version == old(currentAsset.version)
      ensures currentAsset.spineExecutablePath == old(currentAsset.spineExecutablePath)
      ensures selectedTargetVersion == old(selectedTargetVersion)
      ensures isConverting == old(isConverting) && outputDirectory == old(outputDirectory)
    {
      if currentAsset.spineFilePaths.Some? {
        currentAsset.spineFilePaths := Some([]);
        currentAsset.SetSpineFilePath("", fs);
        UpdateStatusMessage(fs);
      }
    }

    /** `SelectSpineFile` after the file dialog: `selection` is `None` when the
        dialog was cancelled, else the chosen file names. The list becomes the
        selection and its first entry the primary path. */
    method SelectSpineFile(selection: Option<seq<string>>, fs: Paths.FileSystem)
      modifies this, currentAsset
      ensures selection.None? ==>
        currentAsset.spineFilePaths == old(currentAsset.spineFilePaths) &&
        currentAsset.spineFilePath == old(currentAsset.spineFilePath) &&
        currentAsset.Details() == old(currentAsset.Details()) &&
        statusMessage == old(statusMessage)
      ensures selection.Some? ==>
        currentAsset.spineFilePaths == selection &&
        currentAsset.spineFilePath == FirstOrEmpty(selection.value) &&
        currentAsset.Details() ==
          Models.DetailsAfter(currentAsset.spineFilePath, fs, old(currentAsset.Details())) &&
        statusMessage == Status(fs)
      ensures currentAsset.version == old(currentAsset.version)
      ensures currentAsset.spineExecutablePath == old(currentAsset.spineExecutablePath)
      ensures selectedTargetVersion == old(selectedTargetVersion)
      ensures isConverting == old(isConverting) && outputDirectory == old(outputDirectory)
    {
      if selection.Some? {
        var names := selection.value;
        currentAsset.spineFilePaths := Some([]);
        for i := 0 to |names|
          modifies currentAsset
          invariant currentAsset.spineFilePaths == Some(names[..i])
          invariant currentAsset.spineExecutablePath == old(currentAsset.spineExecutablePath)
          invariant currentAsset.Details() == old(currentAsset.Details())
          invariant currentAsset.version == old(currentAsset.version)
        {
          assert names[..i + 1] == names[..i] + [names[i]];
          currentAsset.spineFilePaths := Some(currentAsset.spineFilePaths.value + [names[i]]);
        }
        assert names[..|names|] == names;
        currentAsset.SetSpineFilePath(FirstOrEmpty(currentAsset.spineFilePaths.value), fs);
        UpdateStatusMessage(fs);
      }
    }

    /** Why a conversion would be refused now, if it would. */
    function StartRefusal(fs: Paths.FileSystem): Option<string>
      reads this, currentAsset
    {
      Refusal(currentAsset.IsReady(fs), selectedTargetVersion.Some?, currentAsset.spineFilePaths,
              currentAsset.spineFilePath, outputDirectory, fs)
    }

    /** `StartConversionAsync`: runs the checks in order and stops with the first
        failing one's status; otherwise fills in the output directory, converts
        every listed file (`converted(i)` is the outcome of the i-th conversion)
        and reports how many succeeded and failed. */
    method StartConversion(fs: Paths.FileSystem, converted: nat -> bool)
      returns (successCount: nat, failureCount: nat)
      modifies this
      ensures old(StartRefusal(fs)).Some? ==>
        statusMessage == old(StartRefusal(fs)).value && successCount == 0 && failureCount == 0 &&
        outputDirectory == old(outputDirectory) && isConverting == old(isConverting)
      ensures old(StartRefusal(fs)).None? ==>
        successCount == Succeeded(converted, |currentAsset.spineFilePaths.value|) &&
        successCount + failureCount == |currentAsset.spineFilePaths.value| &&
        statusMessage == Summary(successCount, failureCount) &&
        outputDirectory == OutputDirectoryFor(old(outputDirectory), currentAsset.spineFilePath) &&
        !isConverting
      ensures selectedTargetVersion == old(selectedTargetVersion)
    {
      successCount, failureCount := 0, 0;
      if !currentAsset.IsReady(fs) {
        statusMessage := NotReady;
        return;
      }
      if selectedTargetVersion == None {
        statusMessage := MissingVersion;
        return;
      }
      if !HasSpineFiles() {
        statusMessage := NoFiles;
        return;
      }
      var paths := currentAsset.spineFilePaths.value;
      var invalid := InvalidFiles(paths, fs);
      if invalid != [] {
        statusMessage := MissingFilesMessage(invalid);
        return;
      }
      if Blank(outputDirectory) {
        var sourceDirectory := Paths.DirectoryName(currentAsset.spineFilePath);
        if Blank(sourceDirectory) {
          statusMessage := NoOutputDirectory;
          return;
        }
        outputDirectory := sourceDirectory;
      }
      isConverting := true;
      for i := 0 to |paths|
        invariant successCount == Succeeded(converted, i)
        invariant successCount + failureCount == i
      {
        if converted(i) {
          successCount := successCount + 1;
        } else {
          failureCount := failureCount + 1;
        }
      }
      statusMessage := Summary(successCount, failureCount);
      isConverting := false;
    }
  }
}
