/**
 * The export-settings document handed to Spine with `-e`: either a template
 * file patched for the current job, or a built-in fallback document.
 */
module ExportSettings {
  import opened Wrappers
  import opened Json
  import Paths

  // ---------------------------------------------------------------------
  // The fallback document

  /** The fixed `packAtlas` block of the fallback document. */
  function BasicPackAtlas(): seq<Member> {
    BasicPackAtlasSizing() + BasicPackAtlasRest()
  }

  /** The first ten `packAtlas` members, up to the atlas size. */
  function BasicPackAtlasSizing(): seq<Member> {
    [ Member("stripWhitespaceX", Bool(true)),
      Member("stripWhitespaceY", Bool(true)),
      Member("rotation", Bool(true)),
      Member("alias", Bool(true)),
      Member("ignoreBlankImages", Bool(false)),
      Member("alphaThreshold", Num(Integer(3))),
      Member("minWidth", Num(Integer(16))),
      Member("minHeight", Num(Integer(16))),
      Member("maxWidth", Num(Integer(2048))),
      Member("maxHeight", Num(Integer(2048))) ]
  }

  /** The remaining `packAtlas` members. */
  function BasicPackAtlasRest(): seq<Member> {
    [ Member("pot", Bool(false)),
      Member("multipleOfFour", Bool(false)),
      Member("square", Bool(false)),
      Member("outputFormat", Str("png")),
      Member("jpegQuality", Num(Real("0.9"))),
      Member("premultiplyAlpha", Bool(false)),
      Member("bleed", Bool(true)),
      Member("scale", Arr([Num(Integer(1))])),
      Member("scaleSuffix", Arr([Str("")])),
      Member("scaleResampling", Arr([Str("bicubic")])),
      Member("paddingX", Num(Integer(2))),
      Member("paddingY", Num(Integer(2))),
      Member("edgePadding", Bool(true)),
      Member("duplicatePadding", Bool(false)),
      Member("filterMin", Str("Linear")),
      Member("filterMag", Str("Linear")),
      Member("wrapX", Str("ClampToEdge")),
      Member("wrapY", Str("ClampToEdge")),
      Member("format", Str("RGBA8888")),
      Member("atlasExtension", Str(".atlas")),
      Member("combineSubdirectories", Bool(false)),
      Member("flattenPaths", Bool(false)),
      Member("useIndexes", Bool(false)),
      Member("debug", Bool(false)),
      Member("fast", Bool(false)),
      Member("limitMemory", Bool(true)),
      Member("currentProject", Bool(true)),
      Member("packing", Str("rectangles")),
      Member("prettyPrint", Bool(false)),
      Member("legacyOutput", Bool(false)),
      Member("webp", Null),
      Member("bleedIterations", Num(Integer(2))),
      Member("ignore", Bool(false)),
      Member("separator", Str("_")),
      Member("silent", Bool(false)) ]
  }

  /** The fallback document of `CreateBasicExportSettings`: fixed values
      apart from the project file and the output directory. The atlas size
      is 2048 whatever the job settings say. */
  function BasicExportSettings(input: string, output: string): Value {
    Obj([ Member("class", Str("export-json")),
          Member("extension", Str(".json")),
          Member("format", Str("JSON")),
          Member("prettyPrint", Bool(false)),
          Member("nonessential", Bool(true)),
          Member("cleanUp", Bool(true)),
          Member("packAtlas", Obj(BasicPackAtlas())),
          Member("packSource", Str("attachments")),
          Member("packTarget", Str("perskeleton")),
          Member("warnings", Bool(true)),
          Member("version", Null),
          Member("output", Str(output)),
          Member("forceAll", Bool(false)),
          Member("input", Str(input)),
          Member("open", Bool(false)) ])
  }

  /** The fallback document names the job's project file and output
      directory. */
  lemma BasicExportSettingsFields(input: string, output: string)
    ensures Lookup(BasicExportSettings(input, output).members, "input") == Some(Str(input))
    ensures Lookup(BasicExportSettings(input, output).members, "output") == Some(Str(output))
  {
    var d := BasicExportSettings(input, output).members;
    IndexOfNameAt(d, "input", 13);
    IndexOfNameAt(d, "output", 11);
  }

  /** The fallback document's `packAtlas` is the fixed block. */
  lemma BasicExportSettingsAtlas(input: string, output: string)
    ensures Lookup(BasicExportSettings(input, output).members, "packAtlas") == Some(Obj(BasicPackAtlas()))
  {
    IndexOfNameAt(BasicExportSettings(input, output).members, "packAtlas", 6);
  }

  /** The fallback document packs atlases at most 2048 wide, whatever the
      job settings say. */
  lemma BasicPackAtlasWidth()
    ensures Lookup(BasicPackAtlas(), "maxWidth") == Some(Num(Integer(2048)))
  {
    IndexOfNameAt(BasicPackAtlasSizing(), "maxWidth", 8);
    IndexOfNamePrefix(BasicPackAtlasSizing(), BasicPackAtlasRest(), "maxWidth");
  }

  /** The fallback document packs atlases at most 2048 high. */
  lemma BasicPackAtlasHeight()
    ensures Lookup(BasicPackAtlas(), "maxHeight") == Some(Num(Integer(2048)))
  {
    IndexOfNameAt(BasicPackAtlasSizing(), "maxHeight", 9);
    IndexOfNamePrefix(BasicPackAtlasSizing(), BasicPackAtlasRest(), "maxHeight");
  }

  /** A name found in a prefix is found at the same place in the whole. */
  lemma {:induction false} IndexOfNamePrefix(a: seq<Member>, b: seq<Member>, name: string)
    requires IndexOfName(a, name) >= 0
    ensures IndexOfName(a + b, name) == IndexOfName(a, name)
  {
    if a[0].name != name {
      assert (a + b)[1..] == a[1..] + b;
      IndexOfNamePrefix(a[1..], b, name);
    }
  }

  /** The first member called `name` sits at `i`. */
  lemma {:induction false} IndexOfNameAt(d: seq<Member>, name: string, i: nat)
    requires i < |d| && d[i].name == name
    requires forall k :: 0 <= k < i ==> d[k].name != name
    ensures IndexOfName(d, name) == i
  {
    if i > 0 {
      IndexOfNameAt(d[1..], name, i - 1);
    }
  }

  // ---------------------------------------------------------------------
  // packAtlas

  /** The value `ConvertPackAtlasElement` stores for one member of the
      template's `packAtlas` object. */
  function PatchAtlasMember(m: Member, maxWidth: int, maxHeight: int): Value {
    if m.name == "maxWidth" && maxWidth > 0 then Num(Integer(maxWidth))
    else if m.name == "maxHeight" && maxHeight > 0 then Num(Integer(maxHeight))
    else Converted(m.value)
  }

  /** The dictionary after the member loop, before the two insertions. */
  function PatchedAtlasMembers(ms: seq<Member>, maxWidth: int, maxHeight: int): seq<Member> {
    Collect(seq(|ms|, i requires 0 <= i < |ms| => Member(ms[i].name, PatchAtlasMember(ms[i], maxWidth, maxHeight))))
  }

  /** Store `v` under `name` only when `name` is missing and `setting` is
      positive. */
  function InsertIfMissing(d: seq<Member>, name: string, setting: int): seq<Member> {
    if !HasKey(d, name) && setting > 0 then Store(d, name, Num(Integer(setting))) else d
  }

  /** What `ConvertPackAtlasElement` returns. */
  function PatchedPackAtlas(element: Value, maxWidth: int, maxHeight: int): Value {
    if !element.Obj? then Converted(element)
    else
      var d := PatchedAtlasMembers(element.members, maxWidth, maxHeight);
      Obj(InsertIfMissing(InsertIfMissing(d, "maxWidth", maxWidth), "maxHeight", maxHeight))
  }

  /** `ConvertPackAtlasElement`. */
  method ConvertPackAtlasElement(element: Value, maxWidth: int, maxHeight: int) returns (r: Value)
    ensures r == PatchedPackAtlas(element, maxWidth, maxHeight)
  {
    if !element.Obj? {
      r := ConvertJsonElement(element);
      return;
    }
    var ms := element.members;
    ghost var ps := seq(|ms|, i requires 0 <= i < |ms| => Member(ms[i].name, PatchAtlasMember(ms[i], maxWidth, maxHeight)));
    var dict: seq<Member> := [];
    for i := 0 to |ms|
      invariant dict == Collect(ps[..i])
    {
      var property := ms[i];
      var v;
      if property.name == "maxWidth" && maxWidth > 0 {
        v := Num(Integer(maxWidth));
      } else if property.name == "maxHeight" && maxHeight > 0 {
        v := Num(Integer(maxHeight));
      } else {
        v := ConvertJsonElement(property.value);
      }
      assert ps[..i + 1][..i] == ps[..i];
      dict := Store(dict, property.name, v);
    }
    assert ps[..|ms|] == ps;
    if !HasKey(dict, "maxWidth") && maxWidth > 0 {
      dict := Store(dict, "maxWidth", Num(Integer(maxWidth)));
    }
    if !HasKey(dict, "maxHeight") && maxHeight > 0 {
      dict := Store(dict, "maxHeight", Num(Integer(maxHeight)));
    }
    r := Obj(dict);
  }

  /** The value a template member ends up with when every member with that
      name is rewritten by `f`: the rewrite of its last occurrence. */
  lemma CollectRewrittenLookup(ms: seq<Member>, cs: seq<Member>, name: string)
    requires |cs| == |ms|
    requires forall k :: 0 <= k < |ms| ==> cs[k].name == ms[k].name
    ensures Lookup(Collect(cs), name) ==
            if LastIndexOfName(ms, name) < 0 then None else Some(cs[LastIndexOfName(ms, name)].value)
  {
    CollectKeepsLast(cs, name);
    LastIndexOfNameSameNames(cs, ms, name);
  }

  /** The converted value of an optional template value. */
  function ConvertedOption(o: Option<Value>): Option<Value> {
    match o
    case None => None
    case Some(x) => Some(Converted(x))
  }

  /** The size a patched `packAtlas` reports for `name` ("maxWidth" or
      "maxHeight") given the job setting. */
  function PatchedSize(ms: seq<Member>, name: string, setting: int): Option<Value> {
    if setting > 0 then Some(Num(Integer(setting))) else ConvertedOption(LastLookup(ms, name))
  }

  /** An insertion leaves every other name alone and adds its own only when
      it was missing and the setting is positive. */
  lemma InsertIfMissingLookup(d: seq<Member>, name: string, setting: int, k: string)
    ensures Lookup(InsertIfMissing(d, name, setting), k) ==
            if k == name && setting > 0 && !HasKey(d, name) then Some(Num(Integer(setting))) else Lookup(d, k)
    ensures Names(InsertIfMissing(d, name, setting)) == Names(d) + (if setting > 0 then {name} else {})
  {
    assert HasKey(d, name) <==> Lookup(d, name).Some?;
  }

  /** Each member of the patched `packAtlas`, before the insertions, holds
      the patched value of that name's last occurrence. */
  lemma PatchedAtlasMembersLookup(ms: seq<Member>, maxWidth: int, maxHeight: int, k: string)
    ensures Lookup(PatchedAtlasMembers(ms, maxWidth, maxHeight), k) ==
            if LastIndexOfName(ms, k) < 0 then None
            else Some(PatchAtlasMember(ms[LastIndexOfName(ms, k)], maxWidth, maxHeight))
    ensures Names(PatchedAtlasMembers(ms, maxWidth, maxHeight)) == Names(ms)
  {
    var ps := seq(|ms|, i requires 0 <= i < |ms| => Member(ms[i].name, PatchAtlasMember(ms[i], maxWidth, maxHeight)));
    assert Names(ps) == Names(ms) by {
      assert forall j :: 0 <= j < |ms| ==> ps[j].name == ms[j].name;
    }
    CollectRewrittenLookup(ms, ps, k);
  }

  /** The `packAtlas` override of the atlas width: a positive job setting
      overrides or inserts it, otherwise the template's width is kept,
      possibly absent. */
  lemma PackAtlasWidth(ms: seq<Member>, maxWidth: int, maxHeight: int)
    ensures PatchedPackAtlas(Obj(ms), maxWidth, maxHeight).Obj?
    ensures Lookup(PatchedPackAtlas(Obj(ms), maxWidth, maxHeight).members, "maxWidth") ==
            PatchedSize(ms, "maxWidth", maxWidth)
  {
    var d := PatchedAtlasMembers(ms, maxWidth, maxHeight);
    PatchedAtlasMembersLookup(ms, maxWidth, maxHeight, "maxWidth");
    InsertIfMissingLookup(d, "maxWidth", maxWidth, "maxWidth");
    InsertIfMissingLookup(InsertIfMissing(d, "maxWidth", maxWidth), "maxHeight", maxHeight, "maxWidth");
  }

  /** The same override for the atlas height. */
  lemma PackAtlasHeight(ms: seq<Member>, maxWidth: int, maxHeight: int)
    ensures PatchedPackAtlas(Obj(ms), maxWidth, maxHeight).Obj?
    ensures Lookup(PatchedPackAtlas(Obj(ms), maxWidth, maxHeight).members, "maxHeight") ==
            PatchedSize(ms, "maxHeight", maxHeight)
  {
    var d := PatchedAtlasMembers(ms, maxWidth, maxHeight);
    PatchedAtlasMembersLookup(ms, maxWidth, maxHeight, "maxHeight");
    InsertIfMissingLookup(d, "maxWidth", maxWidth, "maxHeight");
    InsertIfMissingLookup(InsertIfMissing(d, "maxWidth", maxWidth), "maxHeight", maxHeight, "maxHeight");
  }

  /** Every other `packAtlas` key keeps the template's value, and the key set
      grows only by the sizes that are set. */
  lemma PackAtlasOtherKeys(ms: seq<Member>, maxWidth: int, maxHeight: int, name: string)
    requires name != "maxWidth" && name != "maxHeight"
    ensures PatchedPackAtlas(Obj(ms), maxWidth, maxHeight).Obj?
    ensures Lookup(PatchedPackAtlas(Obj(ms), maxWidth, maxHeight).members, name) ==
            ConvertedOption(LastLookup(ms, name))
    ensures Names(PatchedPackAtlas(Obj(ms), maxWidth, maxHeight).members) ==
            Names(ms) + (if maxWidth > 0 then {"maxWidth"} else {}) +
            (if maxHeight > 0 then {"maxHeight"} else {})
  {
    var d := PatchedAtlasMembers(ms, maxWidth, maxHeight);
    PatchedAtlasMembersLookup(ms, maxWidth, maxHeight, name);
    InsertIfMissingLookup(d, "maxWidth", maxWidth, name);
    InsertIfMissingLookup(InsertIfMissing(d, "maxWidth", maxWidth), "maxHeight", maxHeight, name);
  }

  /** A `packAtlas` that is not an object is copied as it is. */
  lemma PackAtlasNonObject(element: Value, maxWidth: int, maxHeight: int)
    requires !element.Obj? && Normal(element)
    ensures PatchedPackAtlas(element, maxWidth, maxHeight) == element
  {
    ConvertedNormalIsIdentity(element);
  }

  // ---------------------------------------------------------------------
  // The template merge

  /** The value `CreateTempExportSettings` stores for one top-level member
      of the template. */
  function MergeMember(m: Member, input: string, output: string, maxWidth: int, maxHeight: int): Value {
    if m.name == "input" then Str(input)
    else if m.name == "output" then Str(output)
    else if m.name == "packAtlas" then PatchedPackAtlas(m.value, maxWidth, maxHeight)
    else Converted(m.value)
  }

  /** The merged dictionary before `input` and `output` are added. */
  function MergedMembers(template: seq<Member>, input: string, output: string, maxWidth: int, maxHeight: int): seq<Member> {
    Collect(seq(|template|, i requires 0 <= i < |template| =>
              Member(template[i].name, MergeMember(template[i], input, output, maxWidth, maxHeight))))
  }

  /** The merged document: the template's members rewritten, then `input`
      and `output` added when the template had none. */
  function MergedSettings(template: seq<Member>, input: string, output: string, maxWidth: int, maxHeight: int): Value {
    var d := MergedMembers(template, input, output, maxWidth, maxHeight);
    Obj(AddIfMissing(AddIfMissing(d, "input", Str(input)), "output", Str(output)))
  }

  /** `if (!dict.ContainsKey(name)) dict[name] = v`. */
  function AddIfMissing(d: seq<Member>, name: string, v: Value): seq<Member> {
    if !HasKey(d, name) then Store(d, name, v) else d
  }

  /** The member loop and the two insertions of `CreateTempExportSettings`. */
  method MergeTemplate(template: seq<Member>, input: string, output: string, maxWidth: int, maxHeight: int)
    returns (r: Value)
    ensures r == MergedSettings(template, input, output, maxWidth, maxHeight)
  {
    ghost var ps := seq(|template|, i requires 0 <= i < |template| =>
                       Member(template[i].name, MergeMember(template[i], input, output, maxWidth, maxHeight)));
    var newSettings: seq<Member> := [];
    for i := 0 to |template|
      invariant newSettings == Collect(ps[..i])
    {
      var property := template[i];
      var v;
      if property.name == "input" {
        v := Str(input);
      } else if property.name == "output" {
        v := Str(output);
      } else if property.name == "packAtlas" {
        v := ConvertPackAtlasElement(property.value, maxWidth, maxHeight);
      } else {
        v := ConvertJsonElement(property.value);
      }
      assert ps[..i + 1][..i] == ps[..i];
      newSettings := Store(newSettings, property.name, v);
    }
    assert ps[..|template|] == ps;
    if !HasKey(newSettings, "input") {
      newSettings := Store(newSettings, "input", Str(input));
    }
    if !HasKey(newSettings, "output") {
      newSettings := Store(newSettings, "output", Str(output));
    }
    r := Obj(newSettings);
  }

  lemma MergedMembersLookup(template: seq<Member>, input: string, output: string, maxWidth: int, maxHeight: int, k: string)
    ensures Lookup(MergedMembers(template, input, output, maxWidth, maxHeight), k) ==
            if LastIndexOfName(template, k) < 0 then None
            else Some(MergeMember(template[LastIndexOfName(template, k)], input, output, maxWidth, maxHeight))
    ensures Names(MergedMembers(template, input, output, maxWidth, maxHeight)) == Names(template)
  {
    var ps := seq(|template|, i requires 0 <= i < |template| =>
                 Member(template[i].name, MergeMember(template[i], input, output, maxWidth, maxHeight)));
    assert Names(ps) == Names(template) by {
      assert forall j :: 0 <= j < |template| ==> ps[j].name == template[j].name;
    }
    CollectRewrittenLookup(template, ps, k);
  }

  /** Adding a missing string member. */
  lemma AddIfMissingLookup(d: seq<Member>, name: string, v: Value, k: string)
    ensures Lookup(AddIfMissing(d, name, v), k) ==
            if k == name && !HasKey(d, name) then Some(v) else Lookup(d, k)
    ensures Names(AddIfMissing(d, name, v)) == Names(d) + {name}
  {
    assert HasKey(d, name) <==> Lookup(d, name).Some?;
  }

  /** A template `input` or `output` member is replaced by the job's value. */
  lemma MergedMembersForced(template: seq<Member>, input: string, output: string, maxWidth: int, maxHeight: int)
    ensures Lookup(MergedMembers(template, input, output, maxWidth, maxHeight), "input") in {None, Some(Str(input))}
    ensures Lookup(MergedMembers(template, input, output, maxWidth, maxHeight), "output") in {None, Some(Str(output))}
    ensures Names(MergedMembers(template, input, output, maxWidth, maxHeight)) == Names(template)
  {
    MergedMembersLookup(template, input, output, maxWidth, maxHeight, "input");
    MergedMembersLookup(template, input, output, maxWidth, maxHeight, "output");
  }

  /** The merged document answers `k` as the member loop left it, except
      that `input` and `output` are the job's. */
  lemma MergedSettingsLookup(template: seq<Member>, input: string, output: string, maxWidth: int, maxHeight: int, k: string)
    ensures MergedSettings(template, input, output, maxWidth, maxHeight).Obj?
    ensures Lookup(MergedSettings(template, input, output, maxWidth, maxHeight).members, k) ==
            if k == "input" then Some(Str(input))
            else if k == "output" then Some(Str(output))
            else Lookup(MergedMembers(template, input, output, maxWidth, maxHeight), k)
  {
    var d := MergedMembers(template, input, output, maxWidth, maxHeight);
    MergedMembersForced(template, input, output, maxWidth, maxHeight);
    var d1 := AddIfMissing(d, "input", Str(input));
    if k == "input" {
      AddIfMissingLookup(d, "input", Str(input), "input");
      AddIfMissingLookup(d1, "output", Str(output), "input");
    } else if k == "output" {
      AddIfMissingLookup(d, "input", Str(input), "output");
      AddIfMissingLookup(d1, "output", Str(output), "output");
    } else {
      AddIfMissingLookup(d, "input", Str(input), k);
      AddIfMissingLookup(d1, "output", Str(output), k);
    }
  }

  /** The merged document's keys are the template's plus `input` and
      `output`. */
  lemma MergedSettingsNames(template: seq<Member>, input: string, output: string, maxWidth: int, maxHeight: int)
    ensures MergedSettings(template, input, output, maxWidth, maxHeight).Obj?
    ensures Names(MergedSettings(template, input, output, maxWidth, maxHeight).members) ==
            Names(template) + {"input", "output"}
  {
    var d := MergedMembers(template, input, output, maxWidth, maxHeight);
    MergedMembersForced(template, input, output, maxWidth, maxHeight);
    AddIfMissingLookup(d, "input", Str(input), "input");
    AddIfMissingLookup(AddIfMissing(d, "input", Str(input)), "output", Str(output), "output");
  }

  /** `input` and `output` are the job's, whether or not the template had
      them, and the key set is the template's plus those two. */
  lemma MergeForcesInputOutput(template: seq<Member>, input: string, output: string, maxWidth: int, maxHeight: int)
    ensures Lookup(MergedSettings(template, input, output, maxWidth, maxHeight).members, "input") == Some(Str(input))
    ensures Lookup(MergedSettings(template, input, output, maxWidth, maxHeight).members, "output") == Some(Str(output))
    ensures Names(MergedSettings(template, input, output, maxWidth, maxHeight).members) ==
            Names(template) + {"input", "output"}
    ensures Distinct(MergedSettings(template, input, output, maxWidth, maxHeight).members)
  {
    MergedSettingsLookup(template, input, output, maxWidth, maxHeight, "input");
    MergedSettingsLookup(template, input, output, maxWidth, maxHeight, "output");
    MergedSettingsNames(template, input, output, maxWidth, maxHeight);
  }

  /** What the merge makes of the template's value for a key other than
      `input` and `output`. */
  function MergedValue(name: string, x: Value, maxWidth: int, maxHeight: int): Value {
    if name == "packAtlas" then PatchedPackAtlas(x, maxWidth, maxHeight) else Converted(x)
  }

  /** `packAtlas` is the patched form of the template's, and every other key
      holds the template's value. */
  lemma MergeCopiesOtherKeys(template: seq<Member>, input: string, output: string, maxWidth: int, maxHeight: int, name: string)
    requires name != "input" && name != "output"
    ensures LastLookup(template, name).None? ==>
            Lookup(MergedSettings(template, input, output, maxWidth, maxHeight).members, name).None?
    ensures LastLookup(template, name).Some? ==>
            Lookup(MergedSettings(template, input, output, maxWidth, maxHeight).members, name) ==
            Some(MergedValue(name, LastLookup(template, name).value, maxWidth, maxHeight))
  {
    MergedSettingsLookup(template, input, output, maxWidth, maxHeight, name);
    MergedMembersLookup(template, input, output, maxWidth, maxHeight, name);
  }

  /** For a template already in the shape conversion gives every value
      (`Normal`: distinct names at every level, integers within 32 bits),
      every key other than `input`, `output` and `packAtlas` is copied
      unchanged. A parsed document can have duplicate names or larger
      integers; those are covered by MergeCopiesOtherKeys. */
  lemma MergeKeepsOtherKeys(template: seq<Member>, input: string, output: string, maxWidth: int, maxHeight: int, name: string)
    requires Normal(Obj(template))
    requires name != "input" && name != "output" && name != "packAtlas"
    ensures Lookup(MergedSettings(template, input, output, maxWidth, maxHeight).members, name) == Lookup(template, name)
  {
    MergeCopiesOtherKeys(template, input, output, maxWidth, maxHeight, name);
    CollectDistinct(template);
    CollectKeepsLast(template, name);
    var i := LastIndexOfName(template, name);
    if i >= 0 {
      ConvertedNormalIsIdentity(template[i].value);
    }
  }

  // ---------------------------------------------------------------------
  // Choosing the template

  /** `GetDefaultExportSettingsPath`: `config\DefaultExportSettings.json`
      next to the program. */
  function DefaultExportSettingsPath(appDirectory: string): string {
    Paths.Combine(Paths.Combine(appDirectory, "config"), "DefaultExportSettings.json")
  }

  /** The template `CreateTempExportSettings` reads: the configured file when
      it is set and exists, else the default path. */
  function SourceSettingsPath(exportSettingsPath: string, appDirectory: string, fs: Paths.FileSystem): (r: string)
    ensures r == exportSettingsPath || r == DefaultExportSettingsPath(appDirectory)
    ensures exportSettingsPath != "" && fs.Exists(exportSettingsPath) ==> r == exportSettingsPath
  {
    if exportSettingsPath != "" && fs.Exists(exportSettingsPath) then exportSettingsPath
    else DefaultExportSettingsPath(appDirectory)
  }

  /** The document `CreateTempExportSettings` writes. `parsed` is what
      reading and parsing the template gives, `None` when either throws. A
      root that is not an object also throws (while its members are
      enumerated) and leads to the fallback. */
  function SettingsDocument(input: string, output: string, maxWidth: int, maxHeight: int,
                            templateExists: bool, parsed: Option<Value>): Value
  {
    if !templateExists then BasicExportSettings(input, output)
    else match parsed
      case Some(Obj(template)) => MergedSettings(template, input, output, maxWidth, maxHeight)
      case _ => BasicExportSettings(input, output)
  }

  /** Whatever the template, the written document names the job's project
      file and output directory. */
  lemma SettingsDocumentNamesJob(input: string, output: string, maxWidth: int, maxHeight: int,
                                 templateExists: bool, parsed: Option<Value>)
    ensures SettingsDocument(input, output, maxWidth, maxHeight, templateExists, parsed).Obj?
    ensures Lookup(SettingsDocument(input, output, maxWidth, maxHeight, templateExists, parsed).members, "input") ==
            Some(Str(input))
    ensures Lookup(SettingsDocument(input, output, maxWidth, maxHeight, templateExists, parsed).members, "output") ==
            Some(Str(output))
  {
    BasicExportSettingsFields(input, output);
    if templateExists && parsed.Some? && parsed.value.Obj? {
      MergeForcesInputOutput(parsed.value.members, input, output, maxWidth, maxHeight);
    }
  }

  /** Without a readable object template the fallback is used, and it
      ignores the job's atlas size. */
  lemma FallbackIgnoresAtlasSize(input: string, output: string, maxWidth: int, maxHeight: int,
                                 templateExists: bool, parsed: Option<Value>)
    requires !templateExists || parsed.None? || !parsed.value.Obj?
    ensures SettingsDocument(input, output, maxWidth, maxHeight, templateExists, parsed) ==
            BasicExportSettings(input, output)
  {
  }
}
