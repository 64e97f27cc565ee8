/**
 * Locating the Spine command-line executable: an explicitly configured path,
 * then the Windows registry, then the `SPINE_PATH` environment variable,
 * then a fixed list of install locations. Every source of candidates is an
 * ordered list, and the search returns the first candidate that passes its
 * check.
 */
module ExecutableSearch {
  import opened Wrappers
  import Text
  import Paths

  datatype Hive = LocalMachine | CurrentUser

  /** A registry value: the hive, the sub-key path and the value name. */
  datatype RegistryName = RegistryName(hive: Hive, keyPath: string, valueName: string)

  /** What the search can observe of the machine: the file system, the
      registry values rendered as text, the `SPINE_PATH` variable ("" when it
      is unset) and the local application-data folder. */
  datatype Machine = Machine(
    fs: Paths.FileSystem,
    registry: map<RegistryName, string>,
    spinePath: string,
    localAppData: string)

  const Hives: seq<Hive> := [LocalMachine, CurrentUser]
  const RegistryKeys: seq<string> :=
    ["SOFTWARE\\Esoteric Software\\Spine", "SOFTWARE\\WOW6432Node\\Esoteric Software\\Spine"]
  const ValueNames: seq<string> := ["InstallPath", "Path", "InstallDir", ""]
  const ExeNames: seq<string> := ["Spine.exe", "Spine.com", "spine.exe", "spine.com"]

  /** The lower-cased file names `ValidateSpineExecutable` accepts. */
  const AllowedNames: set<string> := {"spine.exe", "spine.com", "spine"}

  /** `ValidateSpineExecutable`: the quote-trimmed path exists and its file
      name, lower-cased, is on the allow-list. */
  function ValidateSpineExecutable(path: string, fs: Paths.FileSystem): (r: bool)
    ensures r ==> fs.Exists(Text.TrimQuotes(path))
    ensures r ==> Text.ToLowerAscii(Paths.FileName(Text.TrimQuotes(path))) in AllowedNames
  {
    path != [] && fs.Exists(Text.TrimQuotes(path)) &&
    Text.ToLowerAscii(Paths.FileName(Text.TrimQuotes(path))) in AllowedNames
  }

  /** Quoting a path does not change the verdict: `"C:\Spine\Spine.exe"`
      with its quotes is judged as the bare path. */
  lemma ValidateQuoted(p: string, fs: Paths.FileSystem)
    requires forall k :: 0 <= k < |p| ==> p[k] != '"'
    ensures ValidateSpineExecutable("\"" + p + "\"", fs) == ValidateSpineExecutable(p, fs)
  {
    var w := "\"" + p + "\"";
    if p == [] {
      assert Text.LeadingCount(w, Text.IsQuote) == 2;
      ValidateNothingLeft(w, fs);
    } else {
      Text.TrimQuotesOfQuoted(p);
      Text.TrimWhereUnchanged(p, Text.IsQuote);
      ValidateSameTrim(w, p, fs);
    }
  }

  /** The verdict depends only on the quote-trimmed path. */
  lemma ValidateSameTrim(a: string, b: string, fs: Paths.FileSystem)
    requires a != [] && b != [] && Text.TrimQuotes(a) == Text.TrimQuotes(b)
    ensures ValidateSpineExecutable(a, fs) == ValidateSpineExecutable(b, fs)
  {
  }

  /** The name check ignores ASCII case: two existing paths whose file names
      differ only in case get the same verdict. */
  lemma ValidateIgnoresCase(a: string, b: string, fs: Paths.FileSystem)
    requires a != [] && b != []
    requires fs.Exists(Text.TrimQuotes(a)) && fs.Exists(Text.TrimQuotes(b))
    requires Text.SameIgnoringCase(Paths.FileName(Text.TrimQuotes(a)), Paths.FileName(Text.TrimQuotes(b)))
    ensures ValidateSpineExecutable(a, fs) == ValidateSpineExecutable(b, fs)
  {
    Text.ToLowerAsciiEqual(Paths.FileName(Text.TrimQuotes(a)), Paths.FileName(Text.TrimQuotes(b)));
  }

  /** A path of quotes alone names no file the check allows. */
  lemma ValidateNothingLeft(a: string, fs: Paths.FileSystem)
    requires Text.TrimQuotes(a) == []
    ensures !ValidateSpineExecutable(a, fs)
  {
    var f := Paths.FileName(Text.TrimQuotes(a));
    assert f == [];
    assert Text.ToLowerAscii(f) == [];
    EmptyNameNotAllowed();
  }

  lemma EmptyNameNotAllowed()
    ensures "" !in AllowedNames
  {
  }

  /** Every executable name lower-cases to an allowed name. */
  lemma ExeNameAllowed(x: string)
    requires x in ExeNames
    ensures Text.ToLowerAscii(x) in AllowedNames
  {
    assert Text.ToLowerAscii("Spine.exe") == "spine.exe";
    assert Text.ToLowerAscii("Spine.com") == "spine.com";
    assert Text.ToLowerAscii("spine.exe") == "spine.exe";
    assert Text.ToLowerAscii("spine.com") == "spine.com";
  }

  /** An existing file named after one of the executable names, in any
      directory whose path does not start with a quote, passes the check. */
  lemma ValidateAcceptsExeNames(dir: string, x: string, fs: Paths.FileSystem)
    requires x in ExeNames
    requires dir != [] ==> dir[0] != '"'
    requires fs.Exists(Paths.Combine(dir, x))
    ensures ValidateSpineExecutable(Paths.Combine(dir, x), fs)
  {
    var c := Paths.Combine(dir, x);
    ExeNamesHaveNoSeparator(x);
    Paths.FileNameOfCombine(dir, x);
    assert c[|c| - 1] == x[|x| - 1];
    assert c[0] == if dir == [] then x[0] else dir[0];
    assert !Text.IsQuote(c[0]) && !Text.IsQuote(c[|c| - 1]);
    Text.TrimWhereUnchanged(c, Text.IsQuote);
    assert Text.TrimQuotes(c) == c;
    ExeNameAllowed(x);
    assert Text.ToLowerAscii(Paths.FileName(c)) in AllowedNames;
  }

  /** How a source of candidates checks them: the registry only asks
      `File.Exists`, the other sources also validate the name. */
  datatype CandidateCheck = ExistenceOnly | ExistenceAndName

  predicate Accepts(check: CandidateCheck, path: string, fs: Paths.FileSystem) {
    fs.Exists(path) && (check == ExistenceAndName ==> ValidateSpineExecutable(path, fs))
  }

  /** The first accepted candidate, in list order. */
  function First(cands: seq<string>, check: CandidateCheck, fs: Paths.FileSystem): Option<string> {
    if cands == [] then None
    else if Accepts(check, cands[0], fs) then Some(cands[0])
    else First(cands[1..], check, fs)
  }

  /** The search finds an accepted member of the list, and finds nothing
      exactly when no member is accepted. */
  lemma {:induction false} FirstFinds(cands: seq<string>, check: CandidateCheck, fs: Paths.FileSystem)
    ensures First(cands, check, fs).Some? ==>
              First(cands, check, fs).value in cands && Accepts(check, First(cands, check, fs).value, fs)
    ensures First(cands, check, fs).None? <==> forall c :: c in cands ==> !Accepts(check, c, fs)
  {
    if cands != [] {
      var rest := cands[1..];
      FirstFinds(rest, check, fs);
      if !Accepts(check, cands[0], fs) {
        assert First(cands, check, fs) == First(rest, check, fs);
        assert forall c :: c in cands <==> c == cands[0] || c in rest;
      }
    }
  }

  /** Searching a concatenation searches the second list only when the first
      has no hit. */
  lemma {:induction false} FirstConcat(a: seq<string>, b: seq<string>, check: CandidateCheck, fs: Paths.FileSystem)
    ensures First(a + b, check, fs) ==
            if First(a, check, fs).Some? then First(a, check, fs) else First(b, check, fs)
  {
    if a == [] {
      assert a + b == b;
    } else {
      assert (a + b)[0] == a[0];
      assert (a + b)[1..] == a[1..] + b;
      FirstConcat(a[1..], b, check, fs);
    }
  }

  // ---------------------------------------------------------------------
  // The registry: hive x key x value name x executable name

  /** `key.GetValue(valueName)?.ToString()`, kept only when non-empty. */
  function InstallPath(registry: map<RegistryName, string>, h: Hive, key: string, valueName: string): Option<string> {
    var n := RegistryName(h, key, valueName);
    if n in registry && registry[n] != "" then Some(registry[n]) else None
  }

  /** `Path.Combine(installPath, exeName)` for each executable name. */
  function ExeCandidates(dir: string, exes: seq<string>): seq<string> {
    if exes == [] then [] else [Paths.Combine(dir, exes[0])] + ExeCandidates(dir, exes[1..])
  }

  /** The candidates under one key: for each value name holding a non-empty
      install path, every executable name inside it. */
  function ValueCandidates(registry: map<RegistryName, string>, h: Hive, key: string, names: seq<string>): seq<string> {
    if names == [] then []
    else
      (match InstallPath(registry, h, key, names[0])
       case Some(dir) => ExeCandidates(dir, ExeNames)
       case None => []) + ValueCandidates(registry, h, key, names[1..])
  }

  function KeyCandidates(registry: map<RegistryName, string>, h: Hive, keys: seq<string>): seq<string> {
    if keys == [] then []
    else ValueCandidates(registry, h, keys[0], ValueNames) + KeyCandidates(registry, h, keys[1..])
  }

  function HiveCandidates(registry: map<RegistryName, string>, hives: seq<Hive>): seq<string> {
    if hives == [] then []
    else KeyCandidates(registry, hives[0], RegistryKeys) + HiveCandidates(registry, hives[1..])
  }

  /** Every registry candidate, in the order the nested loops visit them. */
  function RegistryCandidates(registry: map<RegistryName, string>): seq<string> {
    HiveCandidates(registry, Hives)
  }

  /** The innermost loop of `FindSpineExecutableFromRegistry`: the first
      executable name under an install path that exists. */
  method SearchInstallPath(dir: string, fs: Paths.FileSystem) returns (r: Option<string>)
    ensures r == First(ExeCandidates(dir, ExeNames), ExistenceOnly, fs)
  {
    for e := 0 to |ExeNames|
      invariant First(ExeCandidates(dir, ExeNames), ExistenceOnly, fs) ==
                First(ExeCandidates(dir, ExeNames[e..]), ExistenceOnly, fs)
    {
      var fullPath := Paths.Combine(dir, ExeNames[e]);
      assert ExeNames[e..][1..] == ExeNames[e + 1..];
      FirstCons(fullPath, ExeCandidates(dir, ExeNames[e + 1..]), ExistenceOnly, fs);
      if fs.Exists(fullPath) {
        return Some(fullPath);
      }
    }
    return None;
  }

  /** The value-name loop: the install paths stored under one key, in order. */
  method SearchKey(m: Machine, hive: Hive, key: string) returns (r: Option<string>)
    ensures r == First(ValueCandidates(m.registry, hive, key, ValueNames), ExistenceOnly, m.fs)
  {
    for k := 0 to |ValueNames|
      invariant First(ValueCandidates(m.registry, hive, key, ValueNames), ExistenceOnly, m.fs) ==
                First(ValueCandidates(m.registry, hive, key, ValueNames[k..]), ExistenceOnly, m.fs)
    {
      assert ValueNames[k..][1..] == ValueNames[k + 1..];
      var installPath := InstallPath(m.registry, hive, key, ValueNames[k]);
      if installPath.Some? {
        r := SearchInstallPath(installPath.value, m.fs);
        FirstConcat(ExeCandidates(installPath.value, ExeNames),
                    ValueCandidates(m.registry, hive, key, ValueNames[k + 1..]), ExistenceOnly, m.fs);
        if r.Some? {
          return r;
        }
      } else {
        assert ValueCandidates(m.registry, hive, key, ValueNames[k..]) ==
               ValueCandidates(m.registry, hive, key, ValueNames[k + 1..]);
      }
    }
    return None;
  }

  /** The key loop of one hive. */
  method SearchHive(m: Machine, hive: Hive) returns (r: Option<string>)
    ensures r == First(KeyCandidates(m.registry, hive, RegistryKeys), ExistenceOnly, m.fs)
  {
    for j := 0 to |RegistryKeys|
      invariant First(KeyCandidates(m.registry, hive, RegistryKeys), ExistenceOnly, m.fs) ==
                First(KeyCandidates(m.registry, hive, RegistryKeys[j..]), ExistenceOnly, m.fs)
    {
      assert RegistryKeys[j..][1..] == RegistryKeys[j + 1..];
      r := SearchKey(m, hive, RegistryKeys[j]);
      FirstConcat(ValueCandidates(m.registry, hive, RegistryKeys[j], ValueNames),
                  KeyCandidates(m.registry, hive, RegistryKeys[j + 1..]), ExistenceOnly, m.fs);
      if r.Some? {
        return r;
      }
    }
    return None;
  }

  /** `FindSpineExecutableFromRegistry`: hives, then keys, then value names,
      then executable names; the first combined path that exists is
      returned. Each nested loop is a method of its own above. */
  method FindSpineExecutableFromRegistry(m: Machine) returns (r: Option<string>)
    ensures r == First(RegistryCandidates(m.registry), ExistenceOnly, m.fs)
  {
    for i := 0 to |Hives|
      invariant First(RegistryCandidates(m.registry), ExistenceOnly, m.fs) ==
                First(HiveCandidates(m.registry, Hives[i..]), ExistenceOnly, m.fs)
    {
      assert Hives[i..][1..] == Hives[i + 1..];
      r := SearchHive(m, Hives[i]);
      FirstConcat(KeyCandidates(m.registry, Hives[i], RegistryKeys),
                  HiveCandidates(m.registry, Hives[i + 1..]), ExistenceOnly, m.fs);
      if r.Some? {
        return r;
      }
    }
    return None;
  }

  lemma Regroup(a: seq<string>, b: seq<string>, c: seq<string>)
    ensures (a + b) + c == a + (b + c)
  {
  }

  /** The search looks at the head first. */
  lemma FirstCons(x: string, rest: seq<string>, check: CandidateCheck, fs: Paths.FileSystem)
    ensures First([x] + rest, check, fs) == if Accepts(check, x, fs) then Some(x) else First(rest, check, fs)
  {
    assert ([x] + rest)[0] == x;
    assert ([x] + rest)[1..] == rest;
  }

  // ---------------------------------------------------------------------
  // SPINE_PATH and the fixed install locations

  /** The candidates `SPINE_PATH` contributes: none when it is unset or
      empty, else the value itself and the two executables inside it. */
  function EnvCandidates(spinePath: string): (r: seq<string>)
    ensures spinePath == "" <==> r == []
  {
    if spinePath == "" then []
    else [spinePath, Paths.Combine(spinePath, "Spine.exe"), Paths.Combine(spinePath, "Spine.com")]
  }

  /** The fixed install locations, in the order they are tried. */
  function CommonPaths(localAppData: string): seq<string> {
    [ "C:\\Program Files\\Spine\\Spine.exe",
      "C:\\Program Files\\Spine\\Spine.com",
      "C:\\Program Files (x86)\\Spine\\Spine.exe",
      "C:\\Program Files (x86)\\Spine\\Spine.com",
      "C:\\Spine\\Spine.exe",
      "C:\\Spine\\Spine.com",
      Paths.Combine(Paths.Combine(localAppData, "Spine"), "Spine.exe"),
      Paths.Combine(Paths.Combine(localAppData, "Spine"), "Spine.com") ]
  }

  /** `FindSpineExecutableFromCommonPaths`: the `SPINE_PATH` candidates are
      tried before the fixed locations, each one checked for existence and
      for its name. */
  method FindSpineExecutableFromCommonPaths(m: Machine) returns (r: Option<string>)
    ensures r == First(EnvCandidates(m.spinePath) + CommonPaths(m.localAppData), ExistenceAndName, m.fs)
  {
    var envPaths := EnvCandidates(m.spinePath);
    var commonPaths := CommonPaths(m.localAppData);
    FirstConcat(envPaths, commonPaths, ExistenceAndName, m.fs);
    if m.spinePath != "" {
      for i := 0 to |envPaths|
        invariant First(envPaths, ExistenceAndName, m.fs) == First(envPaths[i..], ExistenceAndName, m.fs)
      {
        var path := envPaths[i];
        FirstStep(envPaths, i, ExistenceAndName, m.fs);
        if m.fs.Exists(path) && ValidateSpineExecutable(path, m.fs) {
          return Some(path);
        }
      }
    }
    for i := 0 to |commonPaths|
      invariant First(commonPaths, ExistenceAndName, m.fs) == First(commonPaths[i..], ExistenceAndName, m.fs)
    {
      var path := commonPaths[i];
      FirstStep(commonPaths, i, ExistenceAndName, m.fs);
      if m.fs.Exists(path) && ValidateSpineExecutable(path, m.fs) {
        return Some(path);
      }
    }
    return None;
  }

  /** One step of the search from position `i`. */
  lemma FirstStep(cands: seq<string>, i: nat, check: CandidateCheck, fs: Paths.FileSystem)
    requires i < |cands|
    ensures First(cands[i..], check, fs) ==
            if Accepts(check, cands[i], fs) then Some(cands[i]) else First(cands[i + 1..], check, fs)
  {
    assert cands[i..][0] == cands[i];
    assert cands[i..][1..] == cands[i + 1..];
  }

  /** The automatic search: the registry first, then the other sources. */
  function Search(m: Machine): Option<string> {
    var fromRegistry := First(RegistryCandidates(m.registry), ExistenceOnly, m.fs);
    if fromRegistry.Some? then fromRegistry
    else First(EnvCandidates(m.spinePath) + CommonPaths(m.localAppData), ExistenceAndName, m.fs)
  }

  /** `FindSpineExecutable`. */
  method FindSpineExecutable(m: Machine) returns (r: Option<string>)
    ensures r == Search(m)
  {
    r := FindSpineExecutableFromRegistry(m);
    if r.None? {
      r := FindSpineExecutableFromCommonPaths(m);
    }
  }

  /** The configured path, trimmed of quotes, when it exists and passes the
      name check. */
  function ExplicitCandidate(provided: string, fs: Paths.FileSystem): Option<string> {
    if provided == "" then None
    else
      var clean := Text.TrimQuotes(provided);
      if fs.Exists(clean) && ValidateSpineExecutable(clean, fs) then Some(clean) else None
  }

  /** The whole resolution: an acceptable configured path wins, else the
      automatic search decides. */
  function Resolve(provided: string, m: Machine): Option<string> {
    var explicit := ExplicitCandidate(provided, m.fs);
    if explicit.Some? then explicit else Search(m)
  }

  /** `GetValidSpineExecutablePath`. */
  method GetValidSpineExecutablePath(provided: string, m: Machine) returns (r: Option<string>)
    ensures r == Resolve(provided, m)
  {
    if provided != "" {
      var cleanPath := Text.TrimQuotes(provided);
      if m.fs.Exists(cleanPath) && ValidateSpineExecutable(cleanPath, m.fs) {
        return Some(cleanPath);
      }
    }
    r := FindSpineExecutable(m);
  }

  // ---------------------------------------------------------------------
  // Properties of the resolution

  /** A configured path that exists and passes the name check is used as
      given, whatever the registry and the other sources hold. */
  lemma ExplicitPathWins(provided: string, m: Machine)
    requires provided != ""
    requires m.fs.Exists(Text.TrimQuotes(provided))
    requires ValidateSpineExecutable(Text.TrimQuotes(provided), m.fs)
    ensures Resolve(provided, m) == Some(Text.TrimQuotes(provided))
  {
  }

  /** Without a usable configured path, an existing registry candidate beats
      every `SPINE_PATH` and fixed-location candidate. */
  lemma RegistryBeforeOtherSources(provided: string, m: Machine, c: string)
    requires ExplicitCandidate(provided, m.fs).None?
    requires c in RegistryCandidates(m.registry) && m.fs.Exists(c)
    ensures Resolve(provided, m).Some?
    ensures Resolve(provided, m).value in RegistryCandidates(m.registry)
  {
    FirstFinds(RegistryCandidates(m.registry), ExistenceOnly, m.fs);
  }

  /** With no usable configured path and no registry hit, an acceptable
      `SPINE_PATH` candidate beats every fixed location. */
  lemma SpinePathBeforeCommonPaths(provided: string, m: Machine, c: string)
    requires ExplicitCandidate(provided, m.fs).None?
    requires First(RegistryCandidates(m.registry), ExistenceOnly, m.fs).None?
    requires c in EnvCandidates(m.spinePath) && Accepts(ExistenceAndName, c, m.fs)
    ensures Resolve(provided, m) == First(EnvCandidates(m.spinePath), ExistenceAndName, m.fs)
    ensures Resolve(provided, m).Some?
  {
    FirstFinds(EnvCandidates(m.spinePath), ExistenceAndName, m.fs);
    FirstConcat(EnvCandidates(m.spinePath), CommonPaths(m.localAppData), ExistenceAndName, m.fs);
  }

  /** Resolution fails exactly when the configured path is unusable, no
      registry candidate exists and no other candidate is acceptable. */
  lemma NotFoundExactly(provided: string, m: Machine)
    ensures Resolve(provided, m).None? <==>
      ExplicitCandidate(provided, m.fs).None? &&
      (forall c :: c in RegistryCandidates(m.registry) ==> !Accepts(ExistenceOnly, c, m.fs)) &&
      (forall c :: c in EnvCandidates(m.spinePath) + CommonPaths(m.localAppData) ==>
                     !Accepts(ExistenceAndName, c, m.fs))
  {
    FirstFinds(RegistryCandidates(m.registry), ExistenceOnly, m.fs);
    FirstFinds(EnvCandidates(m.spinePath) + CommonPaths(m.localAppData), ExistenceAndName, m.fs);
  }

  /** Every resolved path exists; one that did not come from the registry
      also passes the name check. */
  lemma ResolvedPathExists(provided: string, m: Machine)
    requires Resolve(provided, m).Some?
    ensures m.fs.Exists(Resolve(provided, m).value)
    ensures ValidateSpineExecutable(Resolve(provided, m).value, m.fs) ||
            Resolve(provided, m).value in RegistryCandidates(m.registry)
  {
    FirstFinds(RegistryCandidates(m.registry), ExistenceOnly, m.fs);
    FirstFinds(EnvCandidates(m.spinePath) + CommonPaths(m.localAppData), ExistenceAndName, m.fs);
  }

  /** Every registry candidate is named after one of the four executable
      names, all of which the name check allows. */
  lemma {:induction false} RegistryCandidatesHaveSpineNames(registry: map<RegistryName, string>)
    ensures forall c :: c in RegistryCandidates(registry) ==>
              Paths.FileName(c) in ExeNames &&
              Text.ToLowerAscii(Paths.FileName(c)) in AllowedNames
  {
    forall c | c in RegistryCandidates(registry)
      ensures Paths.FileName(c) in ExeNames
    {
      HiveCandidatesNames(registry, Hives, c);
    }
    forall x | x in ExeNames ensures Text.ToLowerAscii(x) in AllowedNames {
      ExeNameAllowed(x);
    }
  }

  lemma ExeNamesHaveNoSeparator(x: string)
    requires x in ExeNames
    ensures x != [] && forall k :: 0 <= k < |x| ==> !Paths.IsSeparator(x[k])
    ensures x[0] != '"' && x[|x| - 1] != '"'
  {
  }

  lemma {:induction false} ExeCandidatesNames(dir: string, exes: seq<string>, c: string)
    requires forall x :: x in exes ==> x in ExeNames
    requires c in ExeCandidates(dir, exes)
    ensures Paths.FileName(c) in ExeNames
  {
    if c == Paths.Combine(dir, exes[0]) {
      ExeNamesHaveNoSeparator(exes[0]);
      Paths.FileNameOfCombine(dir, exes[0]);
    } else {
      ExeCandidatesNames(dir, exes[1..], c);
    }
  }

  lemma {:induction false} ValueCandidatesNames(registry: map<RegistryName, string>, h: Hive, key: string,
                                                names: seq<string>, c: string)
    requires c in ValueCandidates(registry, h, key, names)
    ensures Paths.FileName(c) in ExeNames
  {
    var p := InstallPath(registry, h, key, names[0]);
    if p.Some? && c in ExeCandidates(p.value, ExeNames) {
      ExeCandidatesNames(p.value, ExeNames, c);
    } else {
      ValueCandidatesNames(registry, h, key, names[1..], c);
    }
  }

  lemma {:induction false} KeyCandidatesNames(registry: map<RegistryName, string>, h: Hive, keys: seq<string>, c: string)
    requires c in KeyCandidates(registry, h, keys)
    ensures Paths.FileName(c) in ExeNames
  {
    if c in ValueCandidates(registry, h, keys[0], ValueNames) {
      ValueCandidatesNames(registry, h, keys[0], ValueNames, c);
    } else {
      KeyCandidatesNames(registry, h, keys[1..], c);
    }
  }

  lemma {:induction false} HiveCandidatesNames(registry: map<RegistryName, string>, hives: seq<Hive>, c: string)
    requires c in HiveCandidates(registry, hives)
    ensures Paths.FileName(c) in ExeNames
  {
    if c in KeyCandidates(registry, hives[0], RegistryKeys) {
      KeyCandidatesNames(registry, hives[0], RegistryKeys, c);
    } else {
      HiveCandidatesNames(registry, hives[1..], c);
    }
  }
}
