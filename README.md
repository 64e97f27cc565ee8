# SpineForge core, modelled in Dafny

SpineForge is a Windows desktop tool that converts Spine animation projects
(`.spine` files) by driving the Spine command-line executable. This project
models the parts of it that decide things:

- how the converter service finds the executable: an explicit path, then the
  registry, then `SPINE_PATH`, then fixed install locations;
- how it builds the command lines, and how the Spine executable reads them
  back under the Microsoft C runtime's argument rules;
- how it merges the export-settings template with the job's settings;
- how it rewrites image and audio paths in exported skeleton JSON;
- how it classifies a file's byte-order mark;
- how it parses the executable's version output;
- how it counts a batch and cleans up its temporary files;
- the view-model's list of selected project files, its primary path, the
  texts derived from them and the counting loop of a batch conversion;
- the asset record: its readiness checks, its setters and its size text.

The world outside the program is passed in as values:

- The file system is a map from path to length; a path exists when it is a key.
- The registry is a map from (hive, key, value name) to text.
- `SPINE_PATH` is a string ("" when unset), and so is the local
  application-data folder.
- Parsed JSON documents are values of an RFC 8259 datatype. Temporary file
  names are parameters.
- The outcome of each external export or conversion is a function from the
  file's position to success.

Files, one module each:

| file | module | what it holds |
|---|---|---|
| wrappers.dfy | Wrappers | `Option` |
| text.dfy | Text | .NET white space, `Trim`, `Split`, `string.Join`, ASCII lower-casing |
| numerals.dfy | Numerals | decimal text of integers and its parser |
| paths.dfy | Paths | the file-system oracle and the `System.IO.Path` members used |
| json.dfy | Json | JSON values, objects as ordered members, `ConvertJsonElement` |
| models.dfy | Models | `ConversionSettings`, the `SpineAsset` class, `FormattedSize` |
| executable_search.dfy | ExecutableSearch | `ValidateSpineExecutable` and the executable search |
| export_settings.dfy | ExportSettings | the settings template merge and the fallback document |
| command_line.dfy | CommandLine | argument lists, their command text and how it tokenizes |
| json_rewrite.dfy | JsonRewrite | `ModifySpineJson` as a left-to-right regular-expression scanner |
| encoding.dfy | Encoding | `DetectFileEncoding`, as written and corrected |
| converter_text.dfy | ConverterText | `ContainsNonAsciiCharacters`, `ParseVersionFromOutput` |
| converter_service.dfy | ConverterService | the batch loop and the service's temporary-file list |
| main_view_model.dfy | ViewModels | the `MainViewModel` class |

Notes on the code's behaviour:

- The `SPINE_PATH` candidates are tried before the fixed install
  locations (Services/SpineConverterService.cs:189-215).
- The JSON path rewrite is `Regex.Replace`, so it rewrites every match, not
  only the first one.
- A file starting `FF FE 00 00` is reported as UTF-16 LE, never as UTF-32 LE;
  see Findings.
- `SpineAsset.SpineFilePaths` is read and written by the view-model but is not
  declared in Models/SpineAsset.cs. It is modelled as an optional sequence
  field of the asset; `None` stands for a collection that was never created.

## Model

| member | source | states |
|---|---|---|
| Text.Split | Services/SpineConverterService.cs:1268 | `Split` gives at least one part and no part contains the separator |
| Text.JoinSplit | Services/SpineConverterService.cs:1268 | joining the parts of a split with the separator gives back the text |
| Text.JoinPart | ViewModels/MainViewModel.cs:583 | every part appears in the joined text at its offset |
| Text.TrimWhere | Services/SpineConverterService.cs:1273-1277 | trimming removes exactly the leading and trailing run of dropped characters; a non-empty result starts and ends with a kept character |
| Text.TrimWhereIdempotent | Services/SpineConverterService.cs:1273 | trimming twice equals trimming once |
| Text.ToLowerAsciiHasNoUpper | Services/SpineConverterService.cs:1223 | no upper-case ASCII letter is left after lower-casing |
| Text.ToLowerAsciiIdempotent | Services/SpineConverterService.cs:1223 | lower-casing an already lower-cased text changes nothing |
| Text.ToLowerAsciiEqual | Services/SpineConverterService.cs:1223-1224 | two texts lower-case to the same text exactly when they differ only in ASCII case, position by position |
| Numerals.ParseIntText | Models/SpineAsset.cs:136-141 | the decimal text of every integer reads back as that integer |
| Paths.FileName | Services/SpineConverterService.cs:1223 | the file name is the longest separator-free suffix of the path |
| Paths.FileNameOfCombine | Services/SpineConverterService.cs:145 | the file name of `Combine(dir, name)` is `name` when `name` has no separator |
| Paths.FileNameWithoutExtension | Models/SpineAsset.cs:115 | the name is a prefix of the file name, cut at its last '.' when there is one and whole otherwise |
| Paths.StemOfName | Models/SpineAsset.cs:115 | a file name `stem + ext`, with no '.' in `stem` and one leading '.' in `ext`, gives `stem` |
| Paths.Combine | Services/SpineConverterService.cs:145 | the directory, then one separator unless it already ends in one, then the name; either part alone when the other is empty |
| Paths.ChangeExtension | Services/SpineConverterService.cs:968 | an empty path stays empty; otherwise the path up to the last '.' of its file name, or the whole path when the file name has no '.', followed by the new extension, with a '.' inserted when the extension lacks one |
| Paths.ChangeExtensionIdempotent | Services/SpineConverterService.cs:968 | changing the extension a second time to the same single-dot extension (such as ".json") leaves the path unchanged |
| Paths.DirectoryNameOfCombine | Models/SpineAsset.cs:116 | the directory of `Combine(d, name)` is `d` with normalised separators, and `d` itself when already normalised |
| Paths.DirectoryNameOfRootFile | Models/SpineAsset.cs:116 | a file directly under a drive root lies in that root, separator included: `C:\a.spine` gives `C:\` |
| Paths.DirectoryNameOfRoot | ViewModels/MainViewModel.cs:592-597 | a blank path or one that is only a root has no directory (null, read as "") |
| Paths.DirectoryNameHasNoSlash | Models/SpineAsset.cs:116 | a directory never holds the alternative separator '/' |
| Models.FormattedSize | Models/SpineAsset.cs:132-143 | the size text ends in " B" exactly when the size is below 1024 |
| Models.FormattedSizeReading | Models/SpineAsset.cs:132-143 | below 1024 the text names the exact byte count; below 1024 * 1024 it names whole kilobytes q with q * 1024 <= size < (q + 1) * 1024; above, whole megabytes likewise |
| Models.SpineAsset.IsReady | Models/SpineAsset.cs:130 | true iff both paths are non-empty and exist |
| Models.SpineAsset.SetSpineExecutablePath | Models/SpineAsset.cs:90-100 | only the executable path changes |
| Models.SpineAsset.SetSpineFilePath | Models/SpineAsset.cs:102-123 | the path is stored; the file path, name, directory and length become `DetailsAfter` of it: copied from the file only when the path is non-empty and exists, and otherwise kept; the version, the executable path and the file list are unchanged |
| Models.DetailsOfProjectFile | Models/SpineAsset.cs:110-118 | setting the path of an existing `d\stem.spine` gives that path, `stem` as the name, `d` as the directory and the file's length |
| Json.Store | Services/SpineConverterService.cs:1110-1116 | a dictionary assignment adds the key, keeps the keys distinct and changes the lookup of that key only |
| Json.Collect | Services/SpineConverterService.cs:1110-1116 | the object built from a member list has distinct keys, the same key set, and each key maps to its last value |
| Json.CollectKeepsLast | Services/SpineConverterService.cs:1110-1116 | each key of the collected object maps to the value of its last occurrence |
| Json.ConvertedNumber | Services/SpineConverterService.cs:1131-1135 | a number stays an integer exactly when it is an integer in the 32-bit range, and then it is unchanged |
| Json.Converted | Services/SpineConverterService.cs:1105-1149 | conversion keeps the kind of a value, the key set of an object and the length of an array |
| Json.ConvertedIsNormal | Services/SpineConverterService.cs:1105-1149 | every converted value is in normal form |
| Json.ConvertedNormalIsIdentity | Services/SpineConverterService.cs:1105-1149 | a value in normal form converts to itself |
| Json.ConvertedIdempotent | Services/SpineConverterService.cs:1105-1149 | converting twice equals converting once |
| Json.ConvertedObjectLookup | Services/SpineConverterService.cs:1110-1116 | a key of a converted object maps to the converted value of its last occurrence |
| Json.ConvertJsonElement | Services/SpineConverterService.cs:1105-1149 | the recursive conversion computes `Converted` |
| ExecutableSearch.ValidateSpineExecutable | Services/SpineConverterService.cs:1213-1225 | an accepted path exists once trimmed of quotes, and its lower-cased file name is one of the allowed names |
| ExecutableSearch.ValidateQuoted | Services/SpineConverterService.cs:1213-1224 | wrapping a path without quotes in quotes does not change the verdict |
| ExecutableSearch.ValidateSameTrim | Services/SpineConverterService.cs:1213-1224 | two non-empty paths that trim to the same text get the same verdict |
| ExecutableSearch.ValidateNothingLeft | Services/SpineConverterService.cs:1213-1224 | a path of quotes alone is rejected |
| ExecutableSearch.ValidateAcceptsExeNames | Services/SpineConverterService.cs:1213-1224 | an existing executable name combined onto a directory not starting with a quote is accepted |
| ExecutableSearch.ValidateIgnoresCase | Services/SpineConverterService.cs:1213-1224 | two existing paths whose file names differ only in ASCII case get the same verdict, so the name comparison is case-insensitive |
| ExecutableSearch.FirstFinds | Services/SpineConverterService.cs:199-215 | the first-hit search returns an accepted member of its list, and returns nothing exactly when no member is accepted |
| ExecutableSearch.FirstConcat | Services/SpineConverterService.cs:199-215 | searching two lists in a row reaches the second only when the first has no hit |
| ExecutableSearch.SearchInstallPath | Services/SpineConverterService.cs:141-150 | the executable-name loop returns the first existing `Combine(installPath, name)` |
| ExecutableSearch.SearchKey | Services/SpineConverterService.cs:128-153 | the value-name loop returns the first existing candidate under the install paths that are non-empty |
| ExecutableSearch.SearchHive | Services/SpineConverterService.cs:124-160 | the key loop returns the first existing candidate over both keys |
| ExecutableSearch.FindSpineExecutableFromRegistry | Services/SpineConverterService.cs:109-169 | returns the first existing candidate in hive, key, value name, executable name order, checked for existence only |
| ExecutableSearch.EnvCandidates | Services/SpineConverterService.cs:189-197 | there are no `SPINE_PATH` candidates exactly when the variable is unset or empty |
| ExecutableSearch.FindSpineExecutableFromCommonPaths | Services/SpineConverterService.cs:172-218 | returns the first existing and valid candidate among the `SPINE_PATH` candidates followed by the fixed locations |
| ExecutableSearch.FindSpineExecutable | Services/SpineConverterService.cs:221-230 | the registry result wins, otherwise the other sources are searched |
| ExecutableSearch.GetValidSpineExecutablePath | Services/SpineConverterService.cs:807-831 | a valid quote-trimmed explicit path is returned as is, otherwise the search result |
| ExecutableSearch.ExplicitPathWins | Services/SpineConverterService.cs:810-818 | a valid explicit path is returned without any search |
| ExecutableSearch.RegistryBeforeOtherSources | Services/SpineConverterService.cs:221-226 | without a valid explicit path, an existing registry candidate makes the result come from the registry |
| ExecutableSearch.SpinePathBeforeCommonPaths | Services/SpineConverterService.cs:189-215 | without explicit and registry hits, an acceptable `SPINE_PATH` candidate makes the result the first such candidate, ahead of every fixed location |
| ExecutableSearch.NotFoundExactly | Services/SpineConverterService.cs:807-831 | the result is null exactly when the explicit path is unusable and no candidate of any source is accepted |
| ExecutableSearch.ResolvedPathExists | Services/SpineConverterService.cs:146 | a resolved path exists, and passes the name check unless it came from the registry |
| ExecutableSearch.RegistryCandidatesHaveSpineNames | Services/SpineConverterService.cs:141-145 | every registry candidate's file name is one of the four executable names |
| ExportSettings.BasicExportSettingsFields | Services/SpineConverterService.cs:961-963 | the fallback document's `input` and `output` are the job's paths |
| ExportSettings.BasicExportSettingsAtlas | Services/SpineConverterService.cs:909-956 | the fallback document's `packAtlas` is the built-in atlas object |
| ExportSettings.BasicPackAtlasWidth | Services/SpineConverterService.cs:919 | the built-in atlas width is 2048 |
| ExportSettings.BasicPackAtlasHeight | Services/SpineConverterService.cs:920 | the built-in atlas height is 2048 |
| ExportSettings.ConvertPackAtlasElement | Services/SpineConverterService.cs:986-1022 | the loop computes the patched `packAtlas` value |
| ExportSettings.PackAtlasWidth | Services/SpineConverterService.cs:996-1014 | `maxWidth` becomes the setting when it is positive, and otherwise keeps the template's value, possibly absent |
| ExportSettings.PackAtlasHeight | Services/SpineConverterService.cs:1000-1019 | `maxHeight` likewise |
| ExportSettings.PackAtlasOtherKeys | Services/SpineConverterService.cs:1004-1007 | every other atlas key keeps its converted value, and the key set only gains positive sizes |
| ExportSettings.PackAtlasNonObject | Services/SpineConverterService.cs:988-991 | a `packAtlas` that is not an object is copied unchanged |
| ExportSettings.MergeTemplate | Services/SpineConverterService.cs:1048-1077 | the merge loop computes the merged document |
| ExportSettings.MergedSettingsNames | Services/SpineConverterService.cs:1051-1077 | the merged key set is the template's keys plus `input` and `output` |
| ExportSettings.MergeForcesInputOutput | Services/SpineConverterService.cs:1053-1077 | `input` is the asset path and `output` the output directory whether or not the template has them, and the keys are distinct |
| ExportSettings.MergeCopiesOtherKeys | Services/SpineConverterService.cs:1061-1070 | every other key maps to the converted template value (patched for `packAtlas`) |
| ExportSettings.MergeKeepsOtherKeys | Services/SpineConverterService.cs:1066-1070 | in a normal-form template every key other than `input`, `output` and `packAtlas` keeps its value |
| ExportSettings.SourceSettingsPath | Services/SpineConverterService.cs:1027-1030 | the template is the configured file when it is set and exists, otherwise the default settings file |
| ExportSettings.SettingsDocumentNamesJob | Services/SpineConverterService.cs:1025-1103 | whichever path is taken, the written document's `input` and `output` are the job's paths |
| ExportSettings.FallbackIgnoresAtlasSize | Services/SpineConverterService.cs:1033-1102 | with no template, or one that does not parse as an object, the document is the fallback whatever the size settings |
| CommandLine.ChooseSettings | Services/SpineConverterService.cs:342-364 | a configured settings file that exists is used; otherwise the default file when it exists; otherwise the built-in export flags |
| CommandLine.ExportArguments | Services/SpineConverterService.cs:335-364 | `-i` and `-o` name the staged input and output, followed by `-e` and the quoted settings path, or by the six built-in export flags |
| CommandLine.StagedIsAscii | Services/SpineConverterService.cs:276-332 | a path with non-ASCII characters is replaced by its staged copy, so the staged argument is ASCII when the temporary copy's path is ASCII (the temporary folder itself may not be) |
| CommandLine.ConvertArguments | Services/SpineConverterService.cs:883-897 | the arguments are `-i`, `-o`, `-e` followed by the quoted input, output directory and settings path |
| CommandLine.TokenizeCommandText | Services/SpineConverterService.cs:896 | joining well-formed arguments with spaces and splitting the text by the Microsoft C runtime rules (backslashes before a quote included) gives back the unquoted arguments |
| CommandLine.TokenizeCons | Services/SpineConverterService.cs:896 | the first well-formed argument of a joined line is read on its own, ahead of the rest |
| CommandLine.QuoteWellFormed | Services/SpineConverterService.cs:337-338 | a quoted path without quotes or a trailing backslash is well formed and unquotes to itself |
| CommandLine.QuoteLosesTrailingBackslash | Services/SpineConverterService.cs:338 | as written, the quoted drive root `D:\` reads back as `D:"` |
| CommandLine.QuoteArgumentReadsBack | Services/SpineConverterService.cs:337-338 | corrected: every path without quotes, trailing backslashes included, reads back as itself once its trailing backslashes are doubled |
| CommandLine.QuoteArgumentAgrees | Services/SpineConverterService.cs:337-338 | the corrected quoting equals the code's on paths that do not end in a backslash |
| CommandLine.QuotedConvertArguments | Services/SpineConverterService.cs:883-897 | corrected: the conversion arguments with the corrected quoting, equal to the code's when no path ends in a backslash |
| CommandLine.QuotedConvertCommandReadsBack | Services/SpineConverterService.cs:883-897 | corrected: the conversion command line reads back as the three paths for every path without quotes |
| CommandLine.SettingsReadBack | Services/SpineConverterService.cs:342-364 | the settings arguments read back as `-e` and the path, or as the six built-in flags |
| CommandLine.ExportCommandReadsBack | Services/SpineConverterService.cs:335-364 | the export command line reads back as the staged input, the staged output and the settings arguments, for paths without quotes or trailing backslash |
| CommandLine.ConvertCommandReadsBack | Services/SpineConverterService.cs:883-897 | the convert command line reads back as `-i`, input, `-o`, output, `-e`, settings path, for paths without quotes or trailing backslash |
| JsonRewrite.SkipWhiteSpec | Services/SpineConverterService.cs:701 | the skip stops at the first non-white-space character |
| JsonRewrite.NextQuoteSpec | Services/SpineConverterService.cs:701 | the next-quote search stops at the first quote |
| JsonRewrite.MatchLengthSound | Services/SpineConverterService.cs:701-714 | a reported match is a `"key"\s*:\s*"[^"]*"` field at the start of the text |
| JsonRewrite.MatchLengthComplete | Services/SpineConverterService.cs:701-714 | every such field at the start of the text is reported, with its length |
| JsonRewrite.Matcher | Services/SpineConverterService.cs:701-714 | the matcher advances and agrees with the pattern |
| JsonRewrite.ModifySpineJson | Services/SpineConverterService.cs:685-725 | with both reset flags off the text is returned unchanged |
| JsonRewrite.NoMatchUnchanged | Services/SpineConverterService.cs:701-714 | a text with no match anywhere is returned unchanged |
| JsonRewrite.NoFieldUnchanged | Services/SpineConverterService.cs:701-714 | a text without the field is returned unchanged |
| JsonRewrite.FieldMatches | Services/SpineConverterService.cs:701-714 | the replacement field is itself a match of exactly its own length |
| JsonRewrite.FirstMatch | Services/SpineConverterService.cs:701-714 | the scan copies the text before the first match, writes the replacement and continues after the match |
| JsonRewrite.KeepsNoMatch | Services/SpineConverterService.cs:701-714 | replacing never creates a match at a position that had none |
| JsonRewrite.ScanIdempotent | Services/SpineConverterService.cs:701-714 | a scan whose replacement matches itself and creates no new matches is idempotent |
| JsonRewrite.ReplaceIdempotent | Services/SpineConverterService.cs:701-714 | rewriting a field twice equals rewriting it once |
| JsonRewrite.ResetImagesIdempotent | Services/SpineConverterService.cs:692-703 | the image-path reset applied twice equals applying it once |
| JsonRewrite.ResetAudioIdempotent | Services/SpineConverterService.cs:705-716 | the audio-path reset applied twice equals applying it once |
| JsonRewrite.NonStringValueKept | Services/SpineConverterService.cs:701-714 | a field whose value is not a quoted string is not rewritten at its position |
| Encoding.Classify | Services/SpineConverterService.cs:573-589 | the result is the encoding of one of the tests, or UTF-8 without BOM |
| Encoding.DetectWith | Services/SpineConverterService.cs:561-595 | a missing file or one shorter than four bytes is UTF-8 without BOM |
| Encoding.AsWrittenClassification | Services/SpineConverterService.cs:563-594 | as written: UTF-8 with BOM iff `EF BB BF`, UTF-16 LE iff `FF FE`, UTF-16 BE iff `FE FF`, and never UTF-32 LE |
| Encoding.AsWrittenMisreadsUtf32 | Services/SpineConverterService.cs:576-586 | as written, a UTF-32 LE file is reported as UTF-16 LE |
| Encoding.DetectPreamble | Services/SpineConverterService.cs:576-586 | corrected: each preamble is detected as its own encoding |
| Encoding.DetectWithoutMark | Services/SpineConverterService.cs:588-594 | corrected: without a known mark the file is UTF-8 without BOM |
| ConverterText.ContainsNonAscii | Services/SpineConverterService.cs:530-533 | true iff some character is above 127 |
| ConverterText.FirstVersionLine | Services/SpineConverterService.cs:1268-1275 | finds nothing iff no line mentions "version" case-insensitively; otherwise the trimmed first line that does |
| ConverterText.ParseVersionFromOutput | Services/SpineConverterService.cs:1261-1278 | the loop computes `VersionFromOutput` |
| ConverterText.TrimKeepsVersion | Services/SpineConverterService.cs:1271-1273 | trimming a line keeps its mention of "version" |
| ConverterText.VersionIsOneLine | Services/SpineConverterService.cs:1261-1278 | the parsed version never contains a line break |
| ConverterText.VersionLineChosen | Services/SpineConverterService.cs:1265-1277 | with a line mentioning "version" the result mentions it too; without one it is the trimmed first line |
| ConverterService.Successes | Services/SpineConverterService.cs:64-99 | the success count never exceeds the number of existing files |
| ConverterService.Existing | Services/SpineConverterService.cs:64-99 | the existing-file count never exceeds the number of files |
| ConverterService.SuccessesPositive | Services/SpineConverterService.cs:64-99 | the success count is positive iff some existing file exported |
| ConverterService.MissingFilesSkipped | Services/SpineConverterService.cs:75-81 | outcomes at positions of missing files do not affect the count |
| ConverterService.ConvertSpineFiles | Services/SpineConverterService.cs:18-106 | no executable or no files gives false before any export; otherwise the count is `Successes` and the result is true iff it is positive |
| ConverterService.CountSuccesses | Services/SpineConverterService.cs:70-96 | the loop skips missing files and its count equals `Successes` over all listed files |
| ConverterService.BatchResult | Services/SpineConverterService.cs:64-99 | the batch succeeds iff some existing file exported, and the count is at most the number of existing files |
| ConverterService.Without | Services/SpineConverterService.cs:833-851 | exactly the listed paths whose deletion does not fail are gone; a locked listed file and every unlisted file stay, with their lengths |
| ConverterService.SpineConverterService.CreateBasicExportSettings | Services/SpineConverterService.cs:899-984 | writes the fallback document to the temporary `.json` path and lists it once for cleanup |
| ConverterService.SpineConverterService.CreateTempExportSettings | Services/SpineConverterService.cs:1025-1103 | writes the merged or fallback document to the temporary `.json` path and lists it once for cleanup |
| ConverterService.SpineConverterService.BuildCommandLineArguments | Services/SpineConverterService.cs:883-897 | the command text is `ConvertArguments` of asset, output and settings file; that path is listed twice for cleanup |
| ConverterService.SpineConverterService.CleanupTempFiles | Services/SpineConverterService.cs:833-851 | every listed file is deleted unless its deletion throws, which is swallowed and leaves the file; nothing else is deleted, and the list is emptied either way |
| ViewModels.FirstIndex | ViewModels/MainViewModel.cs:498-500 | the position of the first occurrence |
| ViewModels.AppendNewKeepsList | ViewModels/MainViewModel.cs:470-478 | entries already listed keep their places and order |
| ViewModels.AppendNewMembers | ViewModels/MainViewModel.cs:470-478 | afterwards the list holds exactly the old entries and every input path |
| ViewModels.AppendNewOnlyNew | ViewModels/MainViewModel.cs:472-477 | every appended entry is an input path that was not listed |
| ViewModels.AppendNewDistinct | ViewModels/MainViewModel.cs:472-477 | adding never creates a duplicate, even when the input repeats a path |
| ViewModels.AppendNewInInputOrder | ViewModels/MainViewModel.cs:470-478 | appended entries follow the input order |
| ViewModels.RemoveFirst | ViewModels/MainViewModel.cs:500 | an absent path changes nothing; a present one has its first occurrence cut out |
| ViewModels.RemoveFirstOnce | ViewModels/MainViewModel.cs:500 | removing a present path shortens the list by one and takes exactly one occurrence |
| ViewModels.FilePathDisplay | ViewModels/MainViewModel.cs:35-47 | "未选择" for no files, the path for one, and "已选择 … 个文件" for several |
| ViewModels.DisplayCountsFiles | ViewModels/MainViewModel.cs:46 | with several files the number in the display reads back as the count |
| ViewModels.HasFiles | ViewModels/MainViewModel.cs:58 | true iff the list exists and is not empty |
| ViewModels.HasMultipleFiles | ViewModels/MainViewModel.cs:56 | true iff the list exists and has more than one entry |
| ViewModels.StatusPrecedence | ViewModels/MainViewModel.cs:838-856 | a missing executable beats a missing project file, which beats a missing target version; "ready" iff all three are present |
| ViewModels.OutputDirectoryOfProject | ViewModels/MainViewModel.cs:588-598 | with no configured output directory a project `Combine(d, name)` is converted into `d`; a configured one is used as it is |
| ViewModels.OutputDirectoryAtRoot | ViewModels/MainViewModel.cs:588-598 | a project directly under a drive root is converted into that root, which is not blank; a root alone leaves no directory |
| ViewModels.MissingFilesNamed | ViewModels/MainViewModel.cs:579-583 | the message starts with its prefix and holds the file name of every missing file at its place in the comma-separated list |
| ViewModels.SummaryDistinguishes | ViewModels/MainViewModel.cs:699 | the final status tells both counts: different success or failure counts give different texts |
| ViewModels.ConvertAllowed | ViewModels/MainViewModel.cs:60-63 | true iff ready, the list is non-empty, a target version is chosen and no conversion runs |
| ViewModels.ConvertAllowedPassesChecks | ViewModels/MainViewModel.cs:838-856 | when conversion is allowed the status reads "ready" and the first three start checks pass |
| ViewModels.InvalidFiles | ViewModels/MainViewModel.cs:579 | exactly the listed paths that are empty or missing |
| ViewModels.Refusal | ViewModels/MainViewModel.cs:560-603 | the start checks pass iff ready, a version is chosen, the list is non-empty, every listed file exists and an output directory is known; not ready is reported first |
| ViewModels.SucceededBounds | ViewModels/MainViewModel.cs:636-690 | the success count equals the file count iff every conversion succeeded, and is zero iff none did |
| ViewModels.MainViewModel.UpdateStatusMessage | ViewModels/MainViewModel.cs:838-856 | the status becomes the text `StatusFor` picks |
| ViewModels.MainViewModel.AddSpineFiles | ViewModels/MainViewModel.cs:463-493 | the list becomes `AppendNew` of the old list and the input; an empty primary path becomes the first entry, whose details the asset takes as `SetSpineFilePath` does; any other primary path and the details are kept; the version is unchanged |
| ViewModels.MainViewModel.RemoveSpineFile | ViewModels/MainViewModel.cs:496-516 | an absent path or missing list changes nothing; otherwise the first occurrence goes and a removed primary path is replaced by the first remaining entry or "", with the details set from it as `SetSpineFilePath` does; the version is unchanged |
| ViewModels.MainViewModel.ClearSpineFiles | ViewModels/MainViewModel.cs:381-396 | an existing list is emptied and the primary path cleared; a missing list changes nothing; the details and the version are kept either way |
| ViewModels.MainViewModel.SelectSpineFile | ViewModels/MainViewModel.cs:344-377 | a cancelled dialog changes nothing; otherwise the list becomes the selection and its first entry the primary path, whose details the asset takes as `SetSpineFilePath` does; the version is unchanged |
| ViewModels.MainViewModel.StartConversion | ViewModels/MainViewModel.cs:557-715 | a failed check leaves its status and runs nothing; otherwise every file is converted, successes plus failures equal the file count, the summary is shown and the converting flag ends false |

## Left out

- Process control is not modelled: starting the Spine executable, reading its
  output streams, the five-minute timeout and `Kill`. Each run is an abstract
  success per position.
- `ConvertAsync`, `ValidateInputs` and `GetSpineVersion` orchestrate those
  process runs and file checks around the modelled parts; they are not
  modelled beyond them.
- The body of `ExportSpineFileAsync` after the argument list is left out:
  output discovery, `ProcessExportedJsonAsync`, copying back from the
  temporary output directory, and the `.backup` copy.
- `ExportSpineFileAsync` also copies the `.atlas` and image files next to a
  staged input and adds those copies to `_tempFiles`. That copying and
  `CopyDirectory` are file-system side effects and are not modelled; the
  staged paths are parameters.
- JsonRewrite.ModifySpineJson: idempotence is proved for each reset pass on
  its own. It is not proved for the two passes together (images then audio),
  because that would need the audio replacement to create no image match and
  the other way round.
- Reading and writing text in a detected encoding is not modelled; only the
  byte-order-mark classification is. The `using` of the stream and the read
  exceptions are represented by an optional byte content.
- JSON serializer formatting and escaping options are not modelled. A number
  is an exact integer or another numeral kept as its text. The conversion
  keeps 32-bit integers; every other number takes the `double`/`decimal` path,
  whose floating-point value is not modelled.
- Registry and environment exceptions are not modelled. The registry is a map,
  and a key that cannot be opened has no values in it.
- `Directory.CreateDirectory` for the output directory, the exceptions it can
  throw, and the error statuses built from exception messages are left out of
  `StartConversion`.
- ViewModels.MainViewModel.StartConversion does not model the progress value,
  the per-file status text, the conversion log and its files, or the copy of
  the target version into the settings before each file.
- The other view-model commands are not modelled: dialogs for the executable,
  the output folder and the settings file, settings persistence, reset and
  automatic detection. The UI notifications (`OnPropertyChanged`) are not
  modelled either.
- Why a `File.Delete` fails in `CleanupTempFiles` is not modelled: the
  files whose deletion throws are a parameter (`locked`), and the
  exception is swallowed as in the code.
- Models.SpineAsset.SetSpineFilePath does not model `LastModified`, which
  comes from the file's timestamp.
- ValidateSpineExecutable: the name check lower-cases with `ToLowerAscii`,
  which maps only A-Z. The code's `ToLower()` follows the current culture;
  the model assumes an invariant culture. Under a Turkish culture
  "SPINE.EXE" lowers to "spıne.exe", which the code rejects and the model
  accepts.
- ToLowerAscii: non-ASCII letters are left as they are, where the culture's
  `ToLower()` would map them too.
- FormattedSize: the one-decimal format uses "." as the decimal separator,
  that is, an invariant culture. Under a culture such as de-DE the code
  writes "5,0 KB".
- JsonRewrite.Replace: a string value holding an escaped quote (`\"`) is
  cut at that quote, as the code's pattern `"[^"]*"` does. The lemmas
  hold for that pattern; they do not say the output is valid JSON in that
  case. The rewritten values are file paths, and Windows paths cannot
  contain '"'.
- Paths.FileName: the file name starts after the last `\` or `/`. A `:`
  (as in `C:a.spine`) does not end the directory part, as it does in
  `Path.GetFileName`.
- Paths.RootLength: UNC roots (`\\server\share`) and device paths are
  not modelled; such a path has a root of one separator.
- ExportCommandReadsBack: holds only for paths without quotes or a trailing
  backslash. A path ending in `\` is read back wrongly; see Findings.
- ConvertCommandReadsBack: likewise; QuotedConvertCommandReadsBack states
  the corrected quoting for every path without quotes.

## Findings

| source | as written | input that shows it | evidently intended | confidence | as-written member | corrected member |
|---|---|---|---|---|---|---|
| Services/SpineConverterService.cs:576-586 | the `FF FE` test for UTF-16 LE comes before the `FF FE 00 00` test for UTF-32 LE, so the UTF-32 branch can never be taken | a file starting `FF FE 00 00 7B 00 00 00` is reported as UTF-16 LE | test the four-byte UTF-32 LE mark before the two-byte UTF-16 LE mark, so each preamble is detected as its own encoding | not executed | Encoding.AsWrittenMisreadsUtf32 | Encoding.DetectPreamble |
| Services/SpineConverterService.cs:337-338 | each path is wrapped as `"path"` without escaping, so a trailing backslash escapes the closing quote under the Microsoft C runtime's argument rules | an output directory `D:\` (a drive root) gives `"D:\"`, read back as `D:"` | double the trailing backslashes before the closing quote, so every path without quotes reads back as itself | not executed | CommandLine.QuoteLosesTrailingBackslash | CommandLine.QuotedConvertCommandReadsBack |
