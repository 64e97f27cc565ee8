/**
 * The stateful part of `SpineConverterService`: the list of temporary
 * files it writes and later deletes, the settings file and command line of
 * a single conversion, and the batch loop over several project files.
 */
module ConverterService {
  import opened Wrappers
  import Paths
  import opened Json
  import ExportSettings
  import CommandLine
  import ExecutableSearch
  import Models

  // ---------------------------------------------------------------------
  // The batch loop of ConvertSpineFilesAsync

  /** Among the first `n` files, those that exist and whose export
      succeeds; `exported(i)` is the outcome of `ExportSpineFileAsync` for
      the file at position `i`. */
  function Successes(files: seq<string>, fs: Paths.FileSystem, exported: nat -> bool, n: nat): (r: nat)
    requires n <= |files|
    ensures r <= Existing(files, fs, n)
  {
    if n == 0 then 0
    else Successes(files, fs, exported, n - 1) + (if fs.Exists(files[n - 1]) && exported(n - 1) then 1 else 0)
  }

  /** Among the first `n` files, those that exist. */
  function Existing(files: seq<string>, fs: Paths.FileSystem, n: nat): (r: nat)
    requires n <= |files|
    ensures r <= n
  {
    if n == 0 then 0 else Existing(files, fs, n - 1) + (if fs.Exists(files[n - 1]) then 1 else 0)
  }

  /** Some file succeeded exactly when the count is positive. */
  lemma {:induction false} SuccessesPositive(files: seq<string>, fs: Paths.FileSystem, exported: nat -> bool, n: nat)
    requires n <= |files|
    ensures Successes(files, fs, exported, n) > 0 <==>
            exists i :: 0 <= i < n && fs.Exists(files[i]) && exported(i)
  {
    if n > 0 {
      SuccessesPositive(files, fs, exported, n - 1);
    }
  }

  /** A missing file is never exported: outcomes at missing positions do
      not change the count. */
  lemma {:induction false} MissingFilesSkipped(files: seq<string>, fs: Paths.FileSystem,
                                               e1: nat -> bool, e2: nat -> bool, n: nat)
    requires n <= |files|
    requires forall i :: 0 <= i < n && fs.Exists(files[i]) ==> e1(i) == e2(i)
    ensures Successes(files, fs, e1, n) == Successes(files, fs, e2, n)
  {
    if n > 0 {
      MissingFilesSkipped(files, fs, e1, e2, n - 1);
    }
  }

  /** `ConvertSpineFilesAsync`. The executable is resolved first (the
      configured path, then the registry, then the common paths); without
      one, or without files, the batch fails before any export. */
  method ConvertSpineFiles(spineExePath: string, m: ExecutableSearch.Machine, spineFiles: Option<seq<string>>,
                           exported: nat -> bool)
    returns (ok: bool, successCount: nat)
    ensures ExecutableSearch.Resolve(spineExePath, m).None? ==> !ok && successCount == 0
    ensures spineFiles.None? || spineFiles.value == [] ==> !ok && successCount == 0
    ensures ExecutableSearch.Resolve(spineExePath, m).Some? && spineFiles.Some? ==>
              successCount == Successes(spineFiles.value, m.fs, exported, |spineFiles.value|)
    ensures ok <==> successCount > 0
  {
    var exe := ExecutableSearch.GetValidSpineExecutablePath(spineExePath, m);
    if exe.None? {
      return false, 0;
    }
    if spineFiles.None? || |spineFiles.value| == 0 {
      return false, 0;
    }
    successCount := CountSuccesses(spineFiles.value, m.fs, exported);
    ok := successCount > 0;
  }

  /** The loop of `ConvertSpineFilesAsync`: missing files are skipped with
      an error message, the others are exported one after the other and
      each success is counted. */
  method CountSuccesses(files: seq<string>, fs: Paths.FileSystem, exported: nat -> bool)
    returns (successCount: nat)
    ensures successCount == Successes(files, fs, exported, |files|)
  {
    successCount := 0;
    for i := 0 to |files|
      invariant successCount == Successes(files, fs, exported, i)
    {
      if !fs.Exists(files[i]) {
        continue;
      }
      var success := exported(i);
      if success {
        successCount := successCount + 1;
      }
    }
  }

  /** The batch reports success exactly when the executable resolves and at
      least one listed file exists and exports; it never counts more
      successes than existing files, nor more than files listed. */
  lemma BatchResult(spineExePath: string, m: ExecutableSearch.Machine, files: seq<string>,
                    exported: nat -> bool, successCount: nat)
    requires ExecutableSearch.Resolve(spineExePath, m).Some?
    requires successCount == Successes(files, m.fs, exported, |files|)
    ensures successCount > 0 <==> exists i :: 0 <= i < |files| && m.fs.Exists(files[i]) && exported(i)
    ensures successCount <= Existing(files, m.fs, |files|) <= |files|
  {
    SuccessesPositive(files, m.fs, exported, |files|);
  }

  // ---------------------------------------------------------------------
  // Temporary files

  /** The file system without the given paths, except the `locked` ones,
      whose deletion fails and leaves them in place. */
  function Without(fs: Paths.FileSystem, paths: seq<string>, locked: set<string>): (r: Paths.FileSystem)
    ensures forall p :: r.Exists(p) <==> fs.Exists(p) && (p !in paths || p in locked)
    ensures forall p :: r.Exists(p) ==> r.Length(p) == fs.Length(p)
  {
    Paths.FileSystem(map p | p in fs.files && (p !in paths || p in locked) :: fs.files[p])
  }

  class SpineConverterService {
    /** `_tempFiles`: the settings files written for the current conversion. */
    var tempFiles: seq<string>

    constructor()
      ensures tempFiles == []
    {
      tempFiles := [];
    }

    /** `CreateBasicExportSettings`: the fallback document, written to a
        fresh temporary `.json` path (`tempFileName` is what
        `Path.GetTempFileName` returns) that is remembered for cleanup. */
    method CreateBasicExportSettings(input: string, output: string, tempFileName: string)
      returns (path: string, doc: Value)
      modifies this
      ensures path == Paths.ChangeExtension(tempFileName, ".json")
      ensures doc == ExportSettings.BasicExportSettings(input, output)
      ensures tempFiles == old(tempFiles) + [path]
    {
      doc := ExportSettings.BasicExportSettings(input, output);
      path := Paths.ChangeExtension(tempFileName, ".json");
      tempFiles := tempFiles + [path];
    }

    /** `CreateTempExportSettings`. The template is the configured settings
        file when it is set and exists, else the default file. `parsed` is
        what reading and parsing it gives, `None` when either throws; a root
        that is not an object throws too. Every failure falls back to the
        basic document. */
    method CreateTempExportSettings(input: string, settings: Models.ConversionSettings, appDirectory: string,
                                    fs: Paths.FileSystem, parsed: Option<Value>, tempFileName: string)
      returns (path: string, doc: Value)
      modifies this
      ensures path == Paths.ChangeExtension(tempFileName, ".json")
      ensures doc == ExportSettings.SettingsDocument(
                       input, settings.outputDirectory, settings.maxWidth, settings.maxHeight,
                       fs.Exists(ExportSettings.SourceSettingsPath(settings.exportSettingsPath, appDirectory, fs)),
                       parsed)
      ensures tempFiles == old(tempFiles) + [path]
    {
      var source := ExportSettings.SourceSettingsPath(settings.exportSettingsPath, appDirectory, fs);
      if !fs.Exists(source) {
        path, doc := CreateBasicExportSettings(input, settings.outputDirectory, tempFileName);
        return;
      }
      if parsed.Some? && parsed.value.Obj? {
        doc := ExportSettings.MergeTemplate(parsed.value.members, input, settings.outputDirectory,
                                            settings.maxWidth, settings.maxHeight);
        path := Paths.ChangeExtension(tempFileName, ".json");
        tempFiles := tempFiles + [path];
      } else {
        path, doc := CreateBasicExportSettings(input, settings.outputDirectory, tempFileName);
      }
    }

    /** `BuildCommandLineArguments`: `-i`, `-o` and `-e` with the settings
        file just written. The path is remembered a second time here, after
        `CreateTempExportSettings` remembered it. */
    method BuildCommandLineArguments(filePath: string, settings: Models.ConversionSettings, appDirectory: string,
                                     fs: Paths.FileSystem, parsed: Option<Value>, tempFileName: string)
      returns (arguments: string, doc: Value)
      modifies this
      ensures arguments == CommandLine.CommandText(CommandLine.ConvertArguments(
                             filePath, settings.outputDirectory, Paths.ChangeExtension(tempFileName, ".json")))
      ensures doc == ExportSettings.SettingsDocument(
                       filePath, settings.outputDirectory, settings.maxWidth, settings.maxHeight,
                       fs.Exists(ExportSettings.SourceSettingsPath(settings.exportSettingsPath, appDirectory, fs)),
                       parsed)
      ensures tempFiles == old(tempFiles) + [Paths.ChangeExtension(tempFileName, ".json")] +
                           [Paths.ChangeExtension(tempFileName, ".json")]
    {
      var tempSettingsPath;
      tempSettingsPath, doc := CreateTempExportSettings(filePath, settings, appDirectory, fs, parsed, tempFileName);
      tempFiles := tempFiles + [tempSettingsPath];
      arguments := CommandLine.CommandText(CommandLine.ConvertArguments(
                     filePath, settings.outputDirectory, tempSettingsPath));
    }

    /** `CleanupTempFiles`: deletes every remembered file that exists, then
        forgets them all. Nothing else is deleted. `locked` holds the files
        whose `File.Delete` throws (a file in use, say); the exception is
        swallowed and the file stays, but the list is cleared all the same. */
    method CleanupTempFiles(fs: Paths.FileSystem, locked: set<string>) returns (after: Paths.FileSystem)
      modifies this
      ensures after == Without(fs, old(tempFiles), locked)
      ensures tempFiles == []
    {
      after := fs;
      for i := 0 to |tempFiles|
        invariant after == Without(fs, tempFiles[..i], locked)
      {
        var tempFile := tempFiles[i];
        if after.Exists(tempFile) && tempFile !in locked {
          after := Paths.FileSystem(after.files - {tempFile});
        }
        assert tempFiles[..i + 1] == tempFiles[..i] + [tempFile];
      }
      assert tempFiles[..|tempFiles|] == tempFiles;
      tempFiles := [];
    }
  }
}
