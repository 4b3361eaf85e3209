/**
 * The staging folder the archive is unpacked into, as a tree: each folder lists its files
 * (name and length in bytes) and its subfolders, in the order the file system reports them.
 * `GetDirectorySize` sums the lengths of every file below the staging root.
 */
module Staging {

  datatype LocalFile = LocalFile(name: string, size: nat)

  datatype Folder = Folder(files: seq<LocalFile>, dirs: seq<Dir>)

  datatype Dir = Dir(name: string, content: Folder)

  /** The total length of a list of files. */
  function SizeOf(files: seq<LocalFile>): nat
  {
    if files == [] then 0 else SizeOf(files[..|files| - 1]) + files[|files| - 1].size
  }

  /** The length of every file in the tree: the folder's own files, then its subfolders'. */
  function TreeSize(f: Folder): nat
    decreases f, |f.dirs| + 1
  {
    SizeOf(f.files) + DirsSize(f, 0)
  }

  /** The length of every file below the subfolders `f.dirs[i..]`. */
  function DirsSize(f: Folder, i: nat): nat
    requires i <= |f.dirs|
    decreases f, |f.dirs| - i
  {
    if i == |f.dirs| then 0 else TreeSize(f.dirs[i].content) + DirsSize(f, i + 1)
  }

  /** Every file of the tree, a folder's own files before those of its subfolders. */
  function AllFiles(f: Folder): seq<LocalFile>
    decreases f, |f.dirs| + 1
  {
    f.files + DirsFiles(f, 0)
  }

  /** Every file below the subfolders `f.dirs[i..]`. */
  function DirsFiles(f: Folder, i: nat): seq<LocalFile>
    requires i <= |f.dirs|
    decreases f, |f.dirs| - i
  {
    if i == |f.dirs| then [] else AllFiles(f.dirs[i].content) + DirsFiles(f, i + 1)
  }

  /** Lengths add up over concatenation. */
  lemma {:induction false} SizeOfAppend(a: seq<LocalFile>, b: seq<LocalFile>)
    ensures SizeOf(a + b) == SizeOf(a) + SizeOf(b)
    decreases |b|
  {
    if b != [] {
      assert (a + b)[..|a + b| - 1] == a + b[..|b| - 1];
      SizeOfAppend(a, b[..|b| - 1]);
    } else {
      assert a + b == a;
    }
  }

  /** The flat list of files has the tree's total length. */
  lemma {:induction false} AllFilesSize(f: Folder)
    ensures SizeOf(AllFiles(f)) == TreeSize(f)
    decreases f, |f.dirs| + 1
  {
    DirsFilesSize(f, 0);
    SizeOfAppend(f.files, DirsFiles(f, 0));
  }

  lemma {:induction false} DirsFilesSize(f: Folder, i: nat)
    requires i <= |f.dirs|
    ensures SizeOf(DirsFiles(f, i)) == DirsSize(f, i)
    decreases f, |f.dirs| - i
  {
    if i < |f.dirs| {
      AllFilesSize(f.dirs[i].content);
      DirsFilesSize(f, i + 1);
      SizeOfAppend(AllFiles(f.dirs[i].content), DirsFiles(f, i + 1));
    }
  }

  /** Taking out one file takes its length off the total. */
  lemma SizeOfSplice(p: seq<LocalFile>, x: LocalFile, q: seq<LocalFile>)
    ensures SizeOf(p + [x] + q) == SizeOf(p + q) + x.size
  {
    SizeOfAppend(p + [x], q);
    SizeOfAppend(p, [x]);
    SizeOfAppend(p, q);
    assert [x][..0] == [];
  }

  /** The total does not depend on the order the files are listed in. */
  lemma {:induction false} SizeOfPermutation(a: seq<LocalFile>, b: seq<LocalFile>)
    requires multiset(a) == multiset(b)
    ensures SizeOf(a) == SizeOf(b)
    decreases |a|
  {
    if a == [] {
      assert |b| == |multiset(b)| == 0;
    } else {
      var n := |a| - 1;
      var x := a[n];
      assert x in multiset(b) by {
        assert a == a[..n] + [x];
      }
      var j :| 0 <= j < |b| && b[j] == x;
      var p, q := b[..j], b[j + 1..];
      PermutationTail(a, b, j);
      SizeOfPermutation(a[..n], p + q);
      assert b == p + [x] + q;
      SizeOfSplice(p, x, q);
    }
  }

  /** Taking the last element off `a` and an equal element at `j` off `b` keeps them
      permutations of each other. */
  lemma PermutationTail(a: seq<LocalFile>, b: seq<LocalFile>, j: nat)
    requires a != [] && j < |b| && b[j] == a[|a| - 1] && multiset(a) == multiset(b)
    ensures multiset(a[..|a| - 1]) == multiset(b[..j] + b[j + 1..])
  {
    var n := |a| - 1;
    var x := a[n];
    var p, q := b[..j], b[j + 1..];
    assert a == a[..n] + [x];
    assert b == p + [x] + q;
    assert multiset(b) == multiset(p) + multiset{x} + multiset(q);
    assert multiset(p + q) == multiset(p) + multiset(q);
    assert multiset(a) == multiset(a[..n]) + multiset{x};
    assert multiset(a[..n]) == multiset(a) - multiset{x};
    assert multiset(p + q) == multiset(b) - multiset{x};
  }

  /** `GetDirectorySize`: the sum, accumulated one file at a time, of the lengths of every
      file below the staging root. */
  method DirectorySize(root: Folder) returns (size: nat)
    ensures size == TreeSize(root)
  {
    var files := AllFiles(root);
    size := 0;
    for i := 0 to |files|
      invariant size == SizeOf(files[..i])
    {
      assert files[..i + 1][..i] == files[..i];
      size := size + files[i].size;
    }
    assert files[..|files|] == files;
    AllFilesSize(root);
  }
}
