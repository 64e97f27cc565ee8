/**
 * The file system as the core sees it, and the members of `System.IO.Path`
 * it uses, with Windows separators.
 */
module Paths {

  /** What `File.Exists` and `FileInfo.Length` report: every existing file
      with its length in bytes. Directories are not files. */
  datatype FileSystem = FileSystem(files: map<string, int>) {

    predicate Exists(path: string) {
      path in files
    }

    function Length(path: string): int
      requires Exists(path)
    {
      files[path]
    }
  }

  /** `Path.DirectorySeparatorChar` and `Path.AltDirectorySeparatorChar`. */
  predicate IsSeparator(c: char) {
    c == '\\' || c == '/'
  }

  /** Index of the last directory separator in `p`, or -1. */
  function LastSeparator(p: string): (i: int)
    ensures -1 <= i < |p|
    ensures i >= 0 ==> IsSeparator(p[i])
    ensures forall k :: i < k < |p| ==> !IsSeparator(p[k])
  {
    if p == [] then -1
    else if IsSeparator(p[|p| - 1]) then |p| - 1
    else LastSeparator(p[..|p| - 1])
  }

  /** `Path.GetFileName`: the longest suffix without a separator. */
  function FileName(p: string): (r: string)
    ensures |r| <= |p| && r == p[|p| - |r|..]
    ensures forall k :: 0 <= k < |r| ==> !IsSeparator(r[k])
    ensures |r| < |p| ==> IsSeparator(p[|p| - |r| - 1])
  {
    p[LastSeparator(p) + 1..]
  }

  /** Index of the last `c` in `s`, or -1. */
  function LastIndexOf(s: string, c: char): (i: int)
    ensures -1 <= i < |s|
    ensures i >= 0 ==> s[i] == c
    ensures forall k :: i < k < |s| ==> s[k] != c
  {
    if s == [] then -1
    else if s[|s| - 1] == c then |s| - 1
    else LastIndexOf(s[..|s| - 1], c)
  }

  /** `Path.GetFileNameWithoutExtension`: the file name up to its last '.'. */
  function FileNameWithoutExtension(p: string): (r: string)
    ensures |r| <= |FileName(p)| && r == FileName(p)[..|r|]
    ensures |r| < |FileName(p)| ==>
      FileName(p)[|r|] == '.' && forall k :: |r| < k < |FileName(p)| ==> FileName(p)[k] != '.'
    ensures |r| == |FileName(p)| ==> forall k :: 0 <= k < |r| ==> r[k] != '.'
  {
    var name := FileName(p);
    var dot := LastIndexOf(name, '.');
    if dot < 0 then name else name[..dot]
  }

  /** A drive letter as `Path` accepts it: an ASCII letter. */
  predicate IsDriveLetter(c: char) {
    'A' <= c <= 'Z' || 'a' <= c <= 'z'
  }

  /** The length of the root of `p`: a drive ("C:") with the separator that
      follows it, if any, or a single leading separator. */
  function RootLength(p: string): (n: nat)
    ensures n <= |p| && n <= 3
    ensures n > 0 && !IsSeparator(p[0]) ==> n >= 2 && p[1] == ':'
  {
    if |p| >= 2 && IsDriveLetter(p[0]) && p[1] == ':' then
      (if |p| >= 3 && IsSeparator(p[2]) then 3 else 2)
    else if |p| >= 1 && IsSeparator(p[0]) then 1
    else 0
  }

  /** Every character is a space (the empty text included). */
  predicate AllSpaces(p: string) {
    forall k :: 0 <= k < |p| ==> p[k] == ' '
  }

  /** Moves `end` back over separators, but not into the root. */
  function TrimSeparators(p: string, end: nat, root: nat): (e: nat)
    requires root <= end <= |p|
    ensures root <= e <= end
    ensures e == root || !IsSeparator(p[e - 1])
    ensures forall k :: e <= k < end ==> IsSeparator(p[k])
    decreases end
  {
    if end > root && IsSeparator(p[end - 1]) then TrimSeparators(p, end - 1, root) else end
  }

  /** How `Path` normalises separators: each becomes '\\' and a separator
      followed by another is dropped, except at the very start. */
  function NormalizeSeparators(p: string): (r: string)
    ensures forall k :: 0 <= k < |r| ==> r[k] != '/'
  {
    if p == [] then []
    else if IsSeparator(p[0]) then "\\" + CollapseSeparators(p[1..])
    else CollapseSeparators(p)
  }

  function CollapseSeparators(p: string): (r: string)
    ensures forall k :: 0 <= k < |r| ==> r[k] != '/'
  {
    if p == [] then []
    else if IsSeparator(p[0]) && |p| > 1 && IsSeparator(p[1]) then CollapseSeparators(p[1..])
    else [if IsSeparator(p[0]) then '\\' else p[0]] + CollapseSeparators(p[1..])
  }

  /** `Path.GetDirectoryName(p) ?? string.Empty`: `p` up to its last
      separator, with the separators before it trimmed, never cutting into
      the root, and normalised; "" (null in .NET) for a blank path or one
      that is only a root. */
  function DirectoryName(p: string): string
  {
    var root := RootLength(p);
    if AllSpaces(p) || |p| <= root then ""
    else
      var i := LastSeparator(p);
      var end := if i >= root then i else root;
      NormalizeSeparators(p[..TrimSeparators(p, end, root)])
  }

  /** No separator follows another, and none is the alternative one. */
  predicate Normalized(p: string) {
    (forall k :: 0 <= k < |p| ==> p[k] != '/') &&
    (forall k :: 0 <= k < |p| - 1 ==> !(IsSeparator(p[k]) && IsSeparator(p[k + 1])))
  }

  lemma {:induction false} CollapseNormalized(p: string)
    requires Normalized(p)
    ensures CollapseSeparators(p) == p
  {
    if p != [] {
      assert Normalized(p[1..]) by {
        assert forall k :: 0 <= k < |p| - 1 ==> p[1..][k] == p[k + 1];
      }
      CollapseNormalized(p[1..]);
      assert p == [p[0]] + p[1..];
    }
  }

  lemma NormalizeNormalized(p: string)
    requires Normalized(p)
    ensures NormalizeSeparators(p) == p
  {
    if p != [] {
      assert Normalized(p[1..]) by {
        assert forall k :: 0 <= k < |p| - 1 ==> p[1..][k] == p[k + 1];
      }
      CollapseNormalized(p[1..]);
      CollapseNormalized(p);
      assert p == [p[0]] + p[1..];
    }
  }

  /** `Path.Combine(dir, name)` for a relative `name`: a separator is inserted
      unless `dir` already ends with one. */
  function Combine(dir: string, name: string): (r: string)
    ensures name == [] ==> r == dir
    ensures dir == [] ==> r == name
    ensures dir != [] && name != [] ==>
      |r| == |dir| + |name| + (if IsSeparator(dir[|dir| - 1]) then 0 else 1) &&
      r[..|dir|] == dir && r[|r| - |name|..] == name && IsSeparator(r[|r| - |name| - 1])
  {
    if name == [] then dir
    else if dir == [] then name
    else if IsSeparator(dir[|dir| - 1]) then dir + name
    else dir + "\\" + name
  }

  /** The extension as `Path.ChangeExtension` appends it: with a leading '.'
      inserted when it has none. */
  function DottedExtension(ext: string): (e: string)
    ensures e != [] && e[0] == '.'
    ensures ext != [] && ext[0] == '.' ==> e == ext
  {
    if ext != [] && ext[0] == '.' then ext else ['.'] + ext
  }

  /** `Path.ChangeExtension(p, ext)`: an empty path stays empty; otherwise
      the text from the last '.' of the file name on is replaced by the
      extension, or the extension is appended when the file name has no '.'. */
  function ChangeExtension(p: string, ext: string): (r: string)
    ensures p == [] ==> r == []
    ensures p != [] ==>
      var e := DottedExtension(ext);
      |r| >= |e| && |r| - |e| <= |p| &&
      r == p[..|r| - |e|] + e &&
      (|r| - |e| < |p| ==>
         p[|r| - |e|] == '.' &&
         forall k :: |r| - |e| < k < |p| ==> p[k] != '.' && !IsSeparator(p[k])) &&
      (|r| - |e| == |p| ==> forall k :: 0 <= k < |FileName(p)| ==> FileName(p)[k] != '.')
  {
    if p == [] then []
    else
      var m := StemEnd(p);
      var r := p[..m] + DottedExtension(ext);
      assert r[..m] == p[..m];
      r
  }

  /** Changing the extension again to the same one changes nothing, for an
      extension such as ".json" that has no '.' after its first character
      and no separator. */
  lemma ChangeExtensionIdempotent(p: string, ext: string)
    requires forall k :: 0 < k < |DottedExtension(ext)| ==>
      DottedExtension(ext)[k] != '.' && !IsSeparator(DottedExtension(ext)[k])
    ensures ChangeExtension(ChangeExtension(p, ext), ext) == ChangeExtension(p, ext)
  {
    if p != [] {
      var e := DottedExtension(ext);
      var q := ChangeExtension(p, ext);
      var m := |q| - |e|;
      assert q[m..] == e;
      StemEndAt(q, m);
      assert q[..m] + e == q;
    }
  }

  /** The stem of `q` ends at `m` when `q[m]` is its last '.' and no
      separator follows it. */
  lemma StemEndAt(q: string, m: nat)
    requires m < |q| && q[m] == '.'
    requires forall k :: m < k < |q| ==> q[k] != '.' && !IsSeparator(q[k])
    ensures StemEnd(q) == m
  {
  }

  /** Where the file name's stem ends in `p`. */
  function StemEnd(p: string): (m: nat)
    ensures m <= |p|
    ensures m < |p| ==>
      p[m] == '.' && forall k :: m < k < |p| ==> p[k] != '.' && !IsSeparator(p[k])
    ensures m == |p| ==> forall k :: 0 <= k < |FileName(p)| ==> FileName(p)[k] != '.'
  {
    var name := FileName(p);
    var stem := FileNameWithoutExtension(p);
    StemInPath(p, name, |stem|);
    |p| - |name| + |stem|
  }

  /** Facts about a stem of length `s` inside a name that ends `p`,
      restated as positions in `p`. */
  lemma StemInPath(p: string, name: string, s: nat)
    requires |name| <= |p| && name == p[|p| - |name|..]
    requires forall k :: 0 <= k < |name| ==> !IsSeparator(name[k])
    requires s <= |name|
    requires s < |name| ==> name[s] == '.' && forall k :: s < k < |name| ==> name[k] != '.'
    ensures s < |name| ==>
      p[|p| - |name| + s] == '.' &&
      forall k :: |p| - |name| + s < k < |p| ==> p[k] != '.' && !IsSeparator(p[k])
  {
    var d := |p| - |name|;
    forall k | d <= k < |p|
      ensures p[k] == name[k - d]
    {
    }
  }

  /** A name without separators is exactly the file name of any path it is
      combined onto. */
  lemma FileNameOfCombine(dir: string, name: string)
    requires name != []
    requires forall k :: 0 <= k < |name| ==> !IsSeparator(name[k])
    ensures FileName(Combine(dir, name)) == name
  {
    if dir == [] || IsSeparator(dir[|dir| - 1]) {
      FileNameAfterSeparator(dir, name);
    } else {
      FileNameAfterSeparator(dir + "\\", name);
      assert dir + "\\" + name == (dir + "\\") + name;
    }
  }

  lemma FileNameAfterSeparator(a: string, name: string)
    requires a == [] || IsSeparator(a[|a| - 1])
    requires forall k :: 0 <= k < |name| ==> !IsSeparator(name[k])
    ensures FileName(a + name) == name
  {
    var p := a + name;
    var r := FileName(p);
    assert forall k :: 0 <= k < |name| ==> p[|a| + k] == name[k];
    assert a != [] ==> p[|a| - 1] == a[|a| - 1];
    assert forall k :: 0 <= k < |r| ==> r[k] == p[|p| - |r| + k];
    assert |r| == |name|;
  }

  /** The directory of a file combined onto a directory `d` (one that does
      not end with a separator and is more than a root) is `d`, with its
      separators normalised. */
  lemma DirectoryNameOfCombine(d: string, name: string)
    requires name != []
    requires forall k :: 0 <= k < |name| ==> !IsSeparator(name[k])
    requires RootLength(d) < |d| && !IsSeparator(d[|d| - 1])
    ensures DirectoryName(Combine(d, name)) == NormalizeSeparators(d)
    ensures Normalized(d) ==> DirectoryName(Combine(d, name)) == d
  {
    var p := Combine(d, name);
    assert p == d + "\\" + name;
    assert p[..|d|] == d;
    assert RootLength(p) == RootLength(d) by {
      assert p[0] == d[0];
      assert |d| >= 2 ==> p[1] == d[1];
      assert |d| >= 3 ==> p[2] == d[2];
    }
    assert !AllSpaces(p) by {
      assert p[|d|] == '\\';
    }
    assert LastSeparator(p) == |d| by {
      assert forall k :: |d| < k < |p| ==> p[k] == name[k - |d| - 1];
    }
    assert TrimSeparators(p, |d|, RootLength(p)) == |d|;
    if Normalized(d) {
      NormalizeNormalized(d);
    }
  }

  /** A path that is only a root, or blank, has no directory: "C:\\",
      "C:", "\\" and "   " all give "". */
  lemma DirectoryNameOfRoot(p: string)
    requires |p| <= RootLength(p) || forall k :: 0 <= k < |p| ==> p[k] == ' '
    ensures DirectoryName(p) == ""
  {
  }

  /** The directory never holds the alternative separator '/'. */
  lemma DirectoryNameHasNoSlash(p: string)
    ensures forall k :: 0 <= k < |DirectoryName(p)| ==> DirectoryName(p)[k] != '/'
  {
  }

  /** A file directly under a drive root lies in that root, separator
      included: "C:\\a.spine" and "C:/a.spine" are both in "C:\\". */
  lemma DirectoryNameOfRootFile(drive: char, sep: char, name: string)
    requires IsDriveLetter(drive) && IsSeparator(sep)
    requires name != []
    requires forall k :: 0 <= k < |name| ==> !IsSeparator(name[k])
    ensures DirectoryName([drive, ':', sep] + name) == [drive, ':', '\\']
  {
    var p := [drive, ':', sep] + name;
    assert RootLength(p) == 3;
    assert !AllSpaces(p) by {
      assert p[1] == ':';
    }
    assert LastSeparator(p) == 2 by {
      assert forall k :: 3 <= k < |p| ==> p[k] == name[k - 3];
    }
    assert p[..3] == [drive, ':', sep];
    assert NormalizeSeparators([drive, ':', sep]) == [drive, ':', '\\'] by {
      assert !IsSeparator(drive) && !IsSeparator(':');
      assert [drive, ':', sep][1..] == [':', sep];
      assert [':', sep][1..] == [sep];
      assert [sep][1..] == [];
      assert CollapseSeparators([sep]) == ['\\'];
      assert CollapseSeparators([':', sep]) == [':', '\\'];
      assert CollapseSeparators([drive, ':', sep]) == [drive, ':', '\\'];
    }
  }

  /** The name without extension of `stem + ext`, where `stem` has no '.'
      and `ext` is '.' followed by no other '.', is `stem`. */
  lemma StemOfName(p: string, stem: string, ext: string)
    requires FileName(p) == stem + ext
    requires forall k :: 0 <= k < |stem| ==> stem[k] != '.'
    requires ext != [] && ext[0] == '.' && forall k :: 1 <= k < |ext| ==> ext[k] != '.'
    ensures FileNameWithoutExtension(p) == stem
  {
    var f := stem + ext;
    var r := FileNameWithoutExtension(p);
    assert f[|stem|] == '.';
    assert r == f[..|stem|] == stem;
  }
}
