/**
 * Windows path handling as the core uses it: `Path.GetFileName`,
 * `Path.GetFileNameWithoutExtension`, `Path.Combine` followed by `Replace('\\', '/')`
 * for device paths, the destination-path construction of `CopySelectedBookAsync`
 * and its "folder already exists" test.
 */
module Paths {
  import opened Wrappers
  import opened Text

  /** The two directory separators Windows accepts. */
  predicate IsSep(c: char)
  {
    c == '\\' || c == '/'
  }

  /** `Path.GetFileName`: everything after the last separator. */
  function FileName(p: string): (r: string)
    ensures |r| <= |p|
  {
    if p == [] then []
    else if IsSep(p[|p| - 1]) then []
    else FileName(p[..|p| - 1]) + [p[|p| - 1]]
  }

  /** The file name is the longest separator-free suffix: a suffix of the path, free of
      separators, and either the whole path or preceded by a separator. */
  lemma {:induction false} FileNameSuffix(p: string)
    ensures var r := FileName(p);
      && r == p[|p| - |r|..]
      && (forall i :: 0 <= i < |r| ==> !IsSep(r[i]))
      && (|r| < |p| ==> IsSep(p[|p| - |r| - 1]))
    decreases |p|
  {
    if p != [] && !IsSep(p[|p| - 1]) {
      var q := p[..|p| - 1];
      FileNameSuffix(q);
      var r' := FileName(q);
      assert q[|q| - |r'|..] + [p[|p| - 1]] == p[|p| - 1 - |r'|..];
      assert |r'| < |q| ==> p[|p| - |r'| - 2] == q[|q| - |r'| - 1];
    }
  }

  /** A path that ends in a separator-free name has that name as its file name. */
  lemma {:induction false} FileNameOfAppend(dir: string, name: string)
    requires forall i :: 0 <= i < |name| ==> !IsSep(name[i])
    requires dir == [] || IsSep(dir[|dir| - 1])
    ensures FileName(dir + name) == name
  {
    var p := dir + name;
    FileNameSuffix(p);
    var r := FileName(p);
    assert p[|dir|..] == name;
  }

  /** The position of the last '.' before `j`, if any. */
  function LastDot(n: string, j: nat): (r: Option<nat>)
    requires j <= |n|
    ensures r.Some? ==> r.value < j && n[r.value] == '.' && forall m :: r.value < m < j ==> n[m] != '.'
    ensures r.None? ==> forall m :: 0 <= m < j ==> n[m] != '.'
  {
    if j == 0 then None
    else if n[j - 1] == '.' then Some(j - 1)
    else LastDot(n, j - 1)
  }

  /** The file name without its extension: everything before the last '.', when there is one. */
  function StripExtension(n: string): (r: string)
    ensures |r| <= |n| && r == n[..|r|]
    ensures |r| == |n| ==> forall m :: 0 <= m < |n| ==> n[m] != '.'
    ensures |r| < |n| ==> n[|r|] == '.' && forall m :: |r| < m < |n| ==> n[m] != '.'
  {
    match LastDot(n, |n|)
    case None => assert n[..|n|] == n; n
    case Some(k) => n[..k]
  }

  /** `Path.GetFileNameWithoutExtension`. */
  function FileNameWithoutExtension(p: string): (r: string)
    ensures |r| <= |FileName(p)| && r == FileName(p)[..|r|]
    ensures forall i :: 0 <= i < |r| ==> !IsSep(r[i])
  {
    var n := FileName(p);
    var r := StripExtension(n);
    FileNameSuffix(p);
    PrefixWithoutSeparators(n, |r|);
    r
  }

  lemma PrefixWithoutSeparators(n: string, k: nat)
    requires k <= |n| && forall i :: 0 <= i < |n| ==> !IsSep(n[i])
    ensures forall i :: 0 <= i < k ==> !IsSep(n[..k][i])
  {
  }

  /** `Path.IsPathRooted` on Windows: a leading separator or a drive letter and ':'. */
  predicate IsRooted(p: string)
  {
    (|p| >= 1 && IsSep(p[0])) || (|p| >= 2 && p[1] == ':' && (('a' <= p[0] <= 'z') || ('A' <= p[0] <= 'Z')))
  }

  /** `Path.Combine(a, b)` on Windows. */
  function Combine(a: string, b: string): string
  {
    if b == [] then a
    else if a == [] then b
    else if IsRooted(b) then b
    else if IsSep(a[|a| - 1]) then a + b
    else a + "\\" + b
  }

  /** The device path of `name` inside `dir`:
      `Path.Combine(dir, name).Replace('\\', '/')` (Form1.cs lines 991 and 1022). */
  function RemoteChild(dir: string, name: string): (r: string)
    ensures '\\' !in r
  {
    ReplaceChar(Combine(dir, name), '\\', '/')
  }

  /** The directory part of a device child path: the parent with '/' for '\\',
      followed by a '/' unless the parent already ends in a separator. */
  lemma RemoteChildShape(dir: string, name: string)
    requires dir != [] && name != [] && !IsRooted(name) && '\\' !in name
    ensures var d := ReplaceChar(dir, '\\', '/');
      RemoteChild(dir, name) == (if IsSep(dir[|dir| - 1]) then d else d + "/") + name
  {
    var joined := if IsSep(dir[|dir| - 1]) then dir else dir + "\\";
    assert Combine(dir, name) == joined + name;
    ReplaceCharThenAbsent(joined, name);
    if joined != dir {
      ReplaceCharThenSep(dir);
    }
  }

  lemma ReplaceCharThenAbsent(joined: string, name: string)
    requires '\\' !in name
    ensures ReplaceChar(joined + name, '\\', '/') == ReplaceChar(joined, '\\', '/') + name
  {
    ReplaceCharAppend(joined, name, '\\', '/');
    ReplaceCharAbsent(name, '\\', '/');
  }

  lemma ReplaceCharThenSep(dir: string)
    ensures ReplaceChar(dir + "\\", '\\', '/') == ReplaceChar(dir, '\\', '/') + "/"
  {
    ReplaceCharAppend(dir, "\\", '\\', '/');
  }

  /** A child's device path extends its parent's (with '/' for '\\'), and its file name is
      the child's own name. */
  lemma RemoteChildNests(dir: string, name: string)
    requires dir != [] && name != [] && !IsRooted(name)
    requires forall i :: 0 <= i < |name| ==> !IsSep(name[i])
    ensures |dir| < |RemoteChild(dir, name)|
    ensures RemoteChild(dir, name)[..|dir|] == ReplaceChar(dir, '\\', '/')
    ensures FileName(RemoteChild(dir, name)) == name
  {
    NoBackslash(name);
    RemoteChildShape(dir, name);
    var j := DeviceParent(dir);
    PrefixOfAppend(ReplaceChar(dir, '\\', '/'), j, name);
    FileNameOfAppend(j, name);
  }

  /** The parent part of a device child path. */
  function DeviceParent(dir: string): (j: string)
    requires dir != []
    ensures var d := ReplaceChar(dir, '\\', '/'); j == if IsSep(dir[|dir| - 1]) then d else d + "/"
    ensures j != [] && IsSep(j[|j| - 1])
  {
    var d := ReplaceChar(dir, '\\', '/');
    if IsSep(dir[|dir| - 1]) then d else d + "/"
  }

  lemma NoBackslash(name: string)
    requires forall i :: 0 <= i < |name| ==> !IsSep(name[i])
    ensures '\\' !in name
  {
    forall i | 0 <= i < |name| ensures name[i] != '\\' {
      assert !IsSep(name[i]);
    }
  }

  lemma PrefixOfAppend(d: string, j: string, name: string)
    requires j == d || j == d + "/"
    ensures (j + name)[..|d|] == d
  {
    assert (j + name)[..|d|] == j[..|d|];
  }

  /** The folder the book is copied under: the chosen target folder with forward slashes,
      ending in exactly one added '/' when it did not already end in one
      (Form1.cs lines 674-678). */
  function DestinationPath(targetFolder: string): (r: string)
    ensures |r| > 0 && r[|r| - 1] == '/'
    ensures '\\' !in r
    ensures var p := ReplaceChar(targetFolder, '\\', '/'); r == p || r == p + "/"
    ensures var p := ReplaceChar(targetFolder, '\\', '/'); |p| > 0 && p[|p| - 1] == '/' ==> r == p
  {
    var p := ReplaceChar(targetFolder, '\\', '/');
    if |p| > 0 && p[|p| - 1] == '/' then p else p + "/"
  }

  /** Normalising an already normalised destination changes nothing. */
  lemma DestinationPathIdempotent(targetFolder: string)
    ensures DestinationPath(DestinationPath(targetFolder)) == DestinationPath(targetFolder)
  {
    var d := DestinationPath(targetFolder);
    assert ReplaceChar(d, '\\', '/') == d;
  }

  /** `destinationPath + selectedBook.FolderName` (Form1.cs line 679). */
  function DestinationFolder(targetFolder: string, folderName: string): (r: string)
    ensures r == DestinationPath(targetFolder) + folderName
  {
    DestinationPath(targetFolder) + folderName
  }

  /** The destination folder's own name is the book's folder name when that contains no separator. */
  lemma DestinationFolderName(targetFolder: string, folderName: string)
    requires forall i :: 0 <= i < |folderName| ==> !IsSep(folderName[i])
    ensures FileName(DestinationFolder(targetFolder, folderName)) == folderName
  {
    FileNameOfAppend(DestinationPath(targetFolder), folderName);
  }

  /** `existingFolders.Any(f => Path.GetFileName(f) == folderName)` (Form1.cs line 686),
      over the listing from position `i` on. */
  function AnyNamed(listing: seq<string>, folderName: string, i: nat): bool
    requires i <= |listing|
    decreases |listing| - i
  {
    i < |listing| && (FileName(listing[i]) == folderName || AnyNamed(listing, folderName, i + 1))
  }

  /** The search answers yes exactly when some listed path from position `i` on has that name. */
  lemma {:induction false} AnyNamedExists(listing: seq<string>, folderName: string, i: nat)
    requires i <= |listing|
    ensures AnyNamed(listing, folderName, i) <==> exists j :: i <= j < |listing| && FileName(listing[j]) == folderName
    decreases |listing| - i
  {
    if i < |listing| {
      AnyNamedExists(listing, folderName, i + 1);
    }
  }

  /** The "folder already exists" test of `CopySelectedBookAsync`. */
  function FolderExists(listing: seq<string>, folderName: string): bool
  {
    AnyNamed(listing, folderName, 0)
  }

  /** A listing that already holds the destination folder is reported as existing. */
  lemma FolderExistsWhenListed(listing: seq<string>, targetFolder: string, folderName: string)
    requires forall i :: 0 <= i < |folderName| ==> !IsSep(folderName[i])
    requires DestinationFolder(targetFolder, folderName) in listing
    ensures FolderExists(listing, folderName)
  {
    DestinationFolderName(targetFolder, folderName);
    var j :| 0 <= j < |listing| && listing[j] == DestinationFolder(targetFolder, folderName);
    AnyNamedExists(listing, folderName, 0);
  }
}
