/**
 * The asset being converted and the settings of a conversion job.
 */
module Models {
  import opened Wrappers
  import Numerals
  import Paths

  /** The job settings the converter reads. Every field is a plain input. */
  datatype ConversionSettings = ConversionSettings(
    spineExecutablePath: string,
    outputDirectory: string,
    exportSettingsPath: string,
    targetVersion: string,
    maxWidth: int,
    maxHeight: int,
    resetImagePaths: bool,
    resetAudioPaths: bool)

  /** The unit `FormattedSize` picks. */
  datatype SizeUnit = Bytes | Kilobytes | Megabytes

  /** What a reader of the size text sees: a whole number and a unit. */
  datatype SizeReading = SizeReading(unit: SizeUnit, shown: int)

  const Kibi: int := 1024
  const Mebi: int := 1024 * 1024

  /** `FormattedSize`: bytes below 1024, else whole kilobytes below 1024 * 1024,
      else whole megabytes. The quotient is `long` division, so the one
      fractional digit of the format is always 0. */
  function FormattedSize(size: int): (r: string)
    ensures |r| >= 3 && r[|r| - 2..] == " B" <==> size < Kibi
  {
    if size < Kibi then Numerals.IntText(size) + " B"
    else
      var r := Numerals.IntText(if size < Mebi then size / Kibi else size / Mebi) +
               if size < Mebi then ".0 KB" else ".0 MB";
      assert r[|r| - 2] != ' ';
      r
  }

  /** Reads a size text back into its number and unit. */
  function ReadSize(r: string): Option<SizeReading> {
    if |r| >= 5 && r[|r| - 5..] == ".0 KB" then
      match Numerals.ParseInt(r[..|r| - 5])
      case Some(v) => Some(SizeReading(Kilobytes, v))
      case None => None
    else if |r| >= 5 && r[|r| - 5..] == ".0 MB" then
      match Numerals.ParseInt(r[..|r| - 5])
      case Some(v) => Some(SizeReading(Megabytes, v))
      case None => None
    else if |r| >= 2 && r[|r| - 2..] == " B" then
      match Numerals.ParseInt(r[..|r| - 2])
      case Some(v) => Some(SizeReading(Bytes, v))
      case None => None
    else None
  }

  /** The size text names the exact byte count below 1024, and otherwise the
      largest whole number of kilobytes or megabytes not above the size. */
  lemma FormattedSizeReading(size: int)
    ensures size < Kibi ==> ReadSize(FormattedSize(size)) == Some(SizeReading(Bytes, size))
    ensures Kibi <= size < Mebi ==>
      exists q :: ReadSize(FormattedSize(size)) == Some(SizeReading(Kilobytes, q)) &&
        q * Kibi <= size < q * Kibi + Kibi
    ensures Mebi <= size ==>
      exists q :: ReadSize(FormattedSize(size)) == Some(SizeReading(Megabytes, q)) &&
        q * Mebi <= size < q * Mebi + Mebi
  {
    if size < Kibi {
      BytesReading(size);
    } else if size < Mebi {
      KilobytesReading(size);
      WholeUnits(size, Kibi);
    } else {
      MegabytesReading(size);
      WholeUnits(size, Mebi);
    }
  }

  lemma WholeUnits(size: int, unit: int)
    requires unit > 0
    ensures size / unit * unit <= size < size / unit * unit + unit
  {
  }

  lemma BytesReading(size: int)
    requires size < Kibi
    ensures ReadSize(FormattedSize(size)) == Some(SizeReading(Bytes, size))
  {
    var r := FormattedSize(size);
    assert r[..|r| - 2] == Numerals.IntText(size);
    Numerals.ParseIntText(size);
    assert !(|r| >= 5 && r[|r| - 5..] in {".0 KB", ".0 MB"}) by {
      assert r[|r| - 2] == ' ';
    }
  }

  lemma KilobytesReading(size: int)
    requires Kibi <= size < Mebi
    ensures ReadSize(FormattedSize(size)) == Some(SizeReading(Kilobytes, size / Kibi))
  {
    var r := FormattedSize(size);
    var q := size / Kibi;
    assert r == Numerals.IntText(q) + ".0 KB";
    assert r[..|r| - 5] == Numerals.IntText(q);
    Numerals.ParseIntText(q);
  }

  lemma MegabytesReading(size: int)
    requires Mebi <= size
    ensures ReadSize(FormattedSize(size)) == Some(SizeReading(Megabytes, size / Mebi))
  {
    var r := FormattedSize(size);
    var q := size / Mebi;
    assert r == Numerals.IntText(q) + ".0 MB";
    assert r[..|r| - 5] == Numerals.IntText(q);
    Numerals.ParseIntText(q);
    assert r[|r| - 5..] != ".0 KB" by {
      assert r[|r| - 2] == 'M';
    }
  }

  /** The details the `SpineFilePath` setter copies from the file. */
  datatype FileDetails = FileDetails(filePath: string, name: string, directory: string, size: int)

  /** The details after `SpineFilePath` is set to `value`: those of the file
      when the path is non-empty and exists, the previous ones otherwise. */
  function DetailsAfter(value: string, fs: Paths.FileSystem, prior: FileDetails): FileDetails {
    if value != "" && fs.Exists(value) then
      FileDetails(value, Paths.FileNameWithoutExtension(value), Paths.DirectoryName(value), fs.Length(value))
    else prior
  }

  /** Setting the path of an existing project file `d\stem.spine` gives the
      file's own details: its path, `stem` as its name, `d` as its directory
      and its length. */
  lemma DetailsOfProjectFile(d: string, stem: string, fs: Paths.FileSystem, prior: FileDetails)
    requires stem != [] && forall k :: 0 <= k < |stem| ==> stem[k] != '.' && !Paths.IsSeparator(stem[k])
    requires Paths.RootLength(d) < |d| && !Paths.IsSeparator(d[|d| - 1]) && Paths.Normalized(d)
    requires fs.Exists(Paths.Combine(d, stem + ".spine"))
    ensures DetailsAfter(Paths.Combine(d, stem + ".spine"), fs, prior) ==
      FileDetails(Paths.Combine(d, stem + ".spine"), stem, d, fs.Length(Paths.Combine(d, stem + ".spine")))
  {
    var file := stem + ".spine";
    var p := Paths.Combine(d, file);
    assert forall k :: 0 <= k < |file| ==> !Paths.IsSeparator(file[k]) by {
      assert forall k :: |stem| <= k < |file| ==> file[k] == ".spine"[k - |stem|];
    }
    Paths.FileNameOfCombine(d, file);
    Paths.StemOfName(p, stem, ".spine");
    Paths.DirectoryNameOfCombine(d, file);
  }

  /** `SpineAsset`: the selected project file, its derived details, the
      executable path and the list of selected project files.
      `LastModified` and `IsSelected` are not part of this model. */
  class SpineAsset {
    var filePath: string
    var name: string
    var directory: string
    var version: string
    var size: int
    var spineExecutablePath: string
    var spineFilePath: string
    /** `SpineFilePaths`; `None` is a collection that was never created. */
    var spineFilePaths: Option<seq<string>>

    constructor ()
      ensures filePath == "" && name == "" && directory == "" && version == ""
      ensures size == 0 && spineExecutablePath == "" && spineFilePath == ""
      ensures spineFilePaths == None
    {
      filePath := "";
      name := "";
      directory := "";
      version := "";
      size := 0;
      spineExecutablePath := "";
      spineFilePath := "";
      spineFilePaths := None;
    }

    /** `IsSpineExecutableExists`. */
    predicate IsSpineExecutableExists(fs: Paths.FileSystem)
      reads this
    {
      spineExecutablePath != "" && fs.Exists(spineExecutablePath)
    }

    /** `IsSpineFileExists`. */
    predicate IsSpineFileExists(fs: Paths.FileSystem)
      reads this
    {
      spineFilePath != "" && fs.Exists(spineFilePath)
    }

    /** The file details stored in the asset. */
    function Details(): FileDetails
      reads this
    {
      FileDetails(filePath, name, directory, size)
    }

    /** `IsReady`: both paths are non-empty and exist. */
    function IsReady(fs: Paths.FileSystem): (r: bool)
      reads this
      ensures r ==> spineExecutablePath != "" && spineFilePath != ""
      ensures r <==> fs.Exists(spineExecutablePath) && fs.Exists(spineFilePath) &&
                     spineExecutablePath != "" && spineFilePath != ""
    {
      IsSpineExecutableExists(fs) && IsSpineFileExists(fs)
    }

    /** The `SpineExecutablePath` setter: no other stored field changes. */
    method SetSpineExecutablePath(value: string)
      modifies this
      ensures spineExecutablePath == value
      ensures filePath == old(filePath) && name == old(name) && directory == old(directory)
      ensures version == old(version) && size == old(size)
      ensures spineFilePath == old(spineFilePath) && spineFilePaths == old(spineFilePaths)
    {
      spineExecutablePath := value;
    }

    /** The `SpineFilePath` setter: the path is stored, and only when it is
        non-empty and exists are the file's path, name, directory and length
        copied into the asset. */
    method SetSpineFilePath(value: string, fs: Paths.FileSystem)
      modifies this
      ensures spineFilePath == value
      ensures Details() == DetailsAfter(value, fs, old(Details()))
      ensures version == old(version) && spineExecutablePath == old(spineExecutablePath)
      ensures spineFilePaths == old(spineFilePaths)
    {
      spineFilePath := value;
      if value != "" && fs.Exists(value) {
        var details := DetailsAfter(value, fs, Details());
        filePath, name, directory, size := details.filePath, details.name, details.directory, details.size;
      }
    }

    /** The `FormattedSize` property. */
    function FormattedSizeText(): string
      reads this
    {
      FormattedSize(size)
    }
  }
}
