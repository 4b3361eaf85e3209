/**
 * What the transfer promises. The reference is `Planned(f, dest)`: every file of the staged
 * tree, a folder's own files before its subfolders, subfolders in listing order, each with
 * the device path it is uploaded to. Every run of the folder copy, however it ends, puts a
 * prefix of that plan on the device and counts exactly its bytes (`Progressed`); the clean
 * run, the failing k-th upload, cancellation and the book-level outcomes follow from that.
 */
module TransferProofs {
  import opened Wrappers
  import opened Text
  import opened Paths
  import opened Staging
  import opened TransferSpec

  /** The uploads of `files[i..]` into `dest`, in order. */
  function FilesPlanned(dest: string, files: seq<LocalFile>, i: nat): (p: seq<Upload>)
    requires i <= |files|
  {
    seq(|files| - i, k requires 0 <= k < |files| - i => UploadOf(dest, files[i + k]))
  }

  /** The plan for `files[i..]` is file `i`'s upload, then the plan for the rest. */
  lemma FilesPlannedCons(dest: string, files: seq<LocalFile>, i: nat)
    requires i < |files|
    ensures FilesPlanned(dest, files, i) == [UploadOf(dest, files[i])] + FilesPlanned(dest, files, i + 1)
  {
  }

  /** The uploads that copying `f` to `dest` makes when nothing goes wrong: its own files,
      then each subfolder's uploads into the device path of the same name. */
  function Planned(f: Folder, dest: string): seq<Upload>
    decreases f, |f.dirs| + 1
  {
    FilesPlanned(dest, f.files, 0) + DirsPlanned(dest, f, 0)
  }

  /** The uploads for the subfolders `f.dirs[i..]` of the folder copied to `dest`. */
  function DirsPlanned(dest: string, f: Folder, i: nat): seq<Upload>
    requires i <= |f.dirs|
    decreases f, |f.dirs| - i
  {
    if i == |f.dirs| then []
    else Planned(f.dirs[i].content, RemoteChild(dest, f.dirs[i].name)) + DirsPlanned(dest, f, i + 1)
  }

  /** The device path a file of the plan is uploaded to lies in the device form of its
      folder and ends in the file's own name. */
  lemma DevicePathOfUpload(dest: string, file: LocalFile)
    requires dest != [] && file.name != [] && !IsRooted(file.name)
    requires forall i :: 0 <= i < |file.name| ==> !IsSep(file.name[i])
    ensures var p := DevicePath(UploadOf(dest, file));
      && '\\' !in p && |dest| < |p|
      && p[..|dest|] == ReplaceChar(dest, '\\', '/')
      && FileName(p) == file.name
  {
    RemoteChildNests(dest, file.name);
  }

  /** The bytes of a list of uploads. */
  function Bytes(us: seq<Upload>): nat
  {
    if us == [] then 0 else Bytes(us[..|us| - 1]) + us[|us| - 1].size
  }

  /** No upload call numbered in `(lo, hi]` throws. */
  predicate NoFailIn(env: Env, lo: nat, hi: nat)
  {
    env.failOn.None? || env.failOn.value <= lo || hi < env.failOn.value
  }

  /** The bar holds a value the copy itself sets: within 0..99. */
  predicate BarInRange(w: World)
  {
    0 <= w.bar <= 99
  }

  /** Every file on the device sits in a device folder that exists. */
  predicate FoldersPresent(w: World)
  {
    forall k :: 0 <= k < |w.uploads| ==> w.uploads[k].folder in w.dirs
  }

  /** A run from `w` to `w2` that ended with `o` has put the first `n` uploads of `planned` on
      the device, for `n` the number of new uploads, and nothing else (`Placed`); it made one
      upload call per new upload, plus the one that threw if one did (`Calls`); and it kept
      what a copy keeps (`Kept`). */
  predicate Progressed(env: Env, w: World, w2: World, planned: seq<Upload>, o: Outcome)
  {
    && Placed(w, w2, planned, o)
    && Calls(env, w, w2, |planned|, o)
    && Kept(env, w, w2, o)
  }

  /** The new uploads are the first ones of the plan, `_copiedBytes` grew by exactly their
      bytes, and all of the plan is done on Completed. */
  predicate Placed(w: World, w2: World, planned: seq<Upload>, o: Outcome)
  {
    Extends(w.uploads, w2.uploads, w.copied, w2.copied, planned, o.Completed?)
  }

  /** `log2` is `log` followed by the first uploads of `planned`, `copied2` is `copied` plus
      their bytes, and all of `planned` is there when `all` holds. */
  predicate Extends(log: seq<Upload>, log2: seq<Upload>, copied: nat, copied2: nat, planned: seq<Upload>, all: bool)
  {
    var n := |log2| - |log|;
    && 0 <= n <= |planned|
    && log2 == log + planned[..n]
    && copied2 == copied + Bytes(planned[..n])
    && (all ==> n == |planned|)
  }

  /** One upload call per new upload, none of them the call that throws; Faulted means one
      more call was made, for a file of the plan, and threw, or a folder creation was refused. */
  predicate Calls(env: Env, w: World, w2: World, planned: nat, o: Outcome)
  {
    var n := |w2.uploads| - |w.uploads|;
    && 0 <= n
    && NoFailIn(env, w.attempts, w.attempts + n)
    && (!o.Faulted? ==> w2.attempts == w.attempts + n)
    && (o.Faulted? ==> (w2.attempts == w.attempts + n + 1 && n < planned && env.failOn == Some(w2.attempts))
                       || (w2.attempts == w.attempts + n && env.refused != {}))
  }

  /** Cancelled means the last check found cancellation requested; cancellation requested
      at the start means no upload call at all; folders are only added, checks only counted up,
      the total and the staging flag untouched, the bar range and the folder invariant kept. */
  predicate Kept(env: Env, w: World, w2: World, o: Outcome)
  {
    && (o.Cancelled? ==> w2.probes >= 1 && Requested(env, w2.probes - 1))
    && (Requested(env, w.probes) ==> |w2.uploads| == |w.uploads| && w2.attempts == w.attempts)
    && w.dirs <= w2.dirs && w.probes <= w2.probes
    && w2.total == w.total && w2.staging == w.staging
    && (BarInRange(w) ==> BarInRange(w2))
    && (FoldersPresent(w) ==> FoldersPresent(w2))
  }

  lemma {:induction false} BytesAppend(a: seq<Upload>, b: seq<Upload>)
    ensures Bytes(a + b) == Bytes(a) + Bytes(b)
    decreases |b|
  {
    if b != [] {
      assert (a + b)[..|a + b| - 1] == a + b[..|b| - 1];
      BytesAppend(a, b[..|b| - 1]);
    } else {
      assert a + b == a;
    }
  }

  /** Nothing done: the run that changes only what a completed no-op may change. */
  lemma ProgressedNothing(env: Env, w: World, w2: World)
    requires w2 == w || w2 == w.(dirs := w2.dirs)
    requires w.dirs <= w2.dirs
    ensures Progressed(env, w, w2, [], Completed)
  {
    assert w2.uploads == w.uploads + [][..0];
  }

  /** A run that stopped early stopped early in any longer plan too. */
  lemma ProgressedStop(env: Env, w: World, w2: World, p1: seq<Upload>, p2: seq<Upload>, o: Outcome)
    requires Progressed(env, w, w2, p1, o) && !o.Completed?
    ensures Progressed(env, w, w2, p1 + p2, o)
  {
    var n := |w2.uploads| - |w.uploads|;
    assert (p1 + p2)[..n] == p1[..n];
  }

  /** A completed run followed by another run is a run over the joined plans. */
  lemma ProgressedThen(env: Env, w: World, w1: World, w2: World, p1: seq<Upload>, p2: seq<Upload>, o: Outcome)
    requires Progressed(env, w, w1, p1, Completed)
    requires Progressed(env, w1, w2, p2, o)
    ensures Progressed(env, w, w2, p1 + p2, o)
  {
    PlacedThen(w, w1, w2, p1, p2, o);
    CallsThen(env, w, w1, w2, |p1|, |p2|, o);
    KeptThen(env, w, w1, w2, o);
  }

  lemma PlacedThen(w: World, w1: World, w2: World, p1: seq<Upload>, p2: seq<Upload>, o: Outcome)
    requires Placed(w, w1, p1, Completed) && Placed(w1, w2, p2, o)
    ensures Placed(w, w2, p1 + p2, o)
  {
    ExtendsThen(w.uploads, w1.uploads, w2.uploads, w.copied, w1.copied, w2.copied, p1, p2, o.Completed?);
  }

  lemma ExtendsThen(log: seq<Upload>, log1: seq<Upload>, log2: seq<Upload>, c: nat, c1: nat, c2: nat,
                    p1: seq<Upload>, p2: seq<Upload>, all: bool)
    requires Extends(log, log1, c, c1, p1, true) && Extends(log1, log2, c1, c2, p2, all)
    ensures Extends(log, log2, c, c2, p1 + p2, all)
  {
    var done2 := p2[..|log2| - |log1|];
    assert p1[..|p1|] == p1;
    JoinPrefix(p1, p2, |done2|);
    assert log2 == log + (p1 + done2);
    BytesAppend(p1, done2);
  }

  lemma JoinPrefix(p1: seq<Upload>, p2: seq<Upload>, n2: nat)
    requires n2 <= |p2|
    ensures (p1 + p2)[..|p1| + n2] == p1 + p2[..n2]
  {
  }

  lemma CallsThen(env: Env, w: World, w1: World, w2: World, m1: nat, m2: nat, o: Outcome)
    requires |w1.uploads| == |w.uploads| + m1 && |w1.uploads| <= |w2.uploads|
    requires Calls(env, w, w1, m1, Completed) && Calls(env, w1, w2, m2, o)
    ensures Calls(env, w, w2, m1 + m2, o)
  {
  }

  lemma KeptThen(env: Env, w: World, w1: World, w2: World, o: Outcome)
    requires Kept(env, w, w1, Completed) && Kept(env, w1, w2, o)
    ensures Kept(env, w, w2, o)
  {
  }

  /** A check that found no cancellation, made before a run, changes nothing that matters. */
  lemma ProgressedAfterProbe(env: Env, w: World, w2: World, planned: seq<Upload>, o: Outcome)
    requires !Requested(env, w.probes)
    requires Progressed(env, Probe(w), w2, planned, o)
    ensures Progressed(env, w, w2, planned, o)
  {
  }

  /** A check that found cancellation, ending the run. */
  lemma ProgressedCancel(env: Env, w: World, planned: seq<Upload>)
    requires Requested(env, w.probes)
    ensures Progressed(env, w, Probe(w), planned, Cancelled)
  {
    assert Probe(w).uploads == w.uploads + planned[..0];
  }

  /** One pass of the file loop: a check, then the upload call. */
  lemma UploadStepProgressed(env: Env, w: World, dest: string, files: seq<LocalFile>, i: nat)
    requires i < |files| && dest in w.dirs && !Requested(env, w.probes)
    ensures var (ok, w1) := UploadStep(env, Probe(w), dest, files, i);
      && (ok ==> Progressed(env, w, w1, [UploadOf(dest, files[i])], Completed))
      && (!ok ==> Progressed(env, w, w1, FilesPlanned(dest, files, i), Faulted))
      && (!ok ==> && w1.uploads == w.uploads && w1.copied == w.copied
                  && w1.attempts == w.attempts + 1 && env.failOn == Some(w1.attempts))
      && w1.dirs == w.dirs
  {
    var (ok, w1) := UploadStep(env, Probe(w), dest, files, i);
    var u := UploadOf(dest, files[i]);
    if ok {
      assert w1.uploads == w.uploads + [u][..1];
      assert Bytes([u]) == u.size by {
        assert [u][..0] == [];
      }
      if FoldersPresent(w) {
        assert forall k :: 0 <= k < |w1.uploads| ==> w1.uploads[k] == if k < |w.uploads| then w.uploads[k] else u;
      }
    } else {
      assert w1.uploads == w.uploads + FilesPlanned(dest, files, i)[..0];
    }
  }

  /** The file loop, whatever happens, puts a prefix of the folder's files on the device. */
  lemma {:induction false} CopyFilesProgressed(env: Env, w: World, dest: string, files: seq<LocalFile>, i: nat)
    requires i <= |files| && dest in w.dirs
    ensures var r := CopyFiles(env, w, dest, files, i);
      Progressed(env, w, r.1, FilesPlanned(dest, files, i), r.0)
    decreases |files| - i
  {
    if i == |files| {
      ProgressedNothing(env, w, w);
    } else if Requested(env, w.probes) {
      ProgressedCancel(env, w, FilesPlanned(dest, files, i));
    } else {
      var s := UploadStep(env, Probe(w), dest, files, i);
      UploadStepProgressed(env, w, dest, files, i);
      if s.0 {
        var r := CopyFiles(env, s.1, dest, files, i + 1);
        CopyFilesProgressed(env, s.1, dest, files, i + 1);
        FilesPlannedCons(dest, files, i);
        ProgressedThen(env, w, s.1, r.1, [UploadOf(dest, files[i])], FilesPlanned(dest, files, i + 1), r.0);
      }
    }
  }

  /** Making sure the device folder exists adds that folder and changes nothing else; it
      fails exactly when the folder is missing and its creation throws. */
  lemma EnsureFolderProgressed(env: Env, w: World, dest: string)
    ensures var r := EnsureFolder(env, w, dest);
      && (r.None? <==> dest !in w.dirs && dest in env.refused)
      && (r.Some? ==> r.value == w.(dirs := w.dirs + {dest}))
      && (r.Some? ==> dest in r.value.dirs && Progressed(env, w, r.value, [], Completed))
  {
    var r := EnsureFolder(env, w, dest);
    if dest in w.dirs {
      assert w.dirs + {dest} == w.dirs;
    }
    if r.Some? {
      ProgressedNothing(env, w, r.value);
    }
  }

  /** The folder copy, whatever happens, puts a prefix of `Planned(f, dest)` on the device. */
  lemma {:induction false} CopyFolderProgressed(env: Env, w: World, f: Folder, dest: string)
    ensures Progressed(env, w, CopyFolder(env, w, f, dest).1, Planned(f, dest), CopyFolder(env, w, f, dest).0)
    decreases f, |f.dirs| + 1
  {
    var created := EnsureFolder(env, w, dest);
    var fp, dp := FilesPlanned(dest, f.files, 0), DirsPlanned(dest, f, 0);
    if created.None? {
      assert w.uploads == w.uploads + (fp + dp)[..0];
    } else {
      var w0 := created.value;
      EnsureFolderProgressed(env, w, dest);
      var r1 := CopyFiles(env, w0, dest, f.files, 0);
      CopyFilesProgressed(env, w0, dest, f.files, 0);
      assert [] + fp == fp;
      ProgressedThen(env, w, w0, r1.1, [], fp, r1.0);
      if r1.0 != Completed {
        ProgressedStop(env, w, r1.1, fp, dp, r1.0);
      } else {
        var r2 := CopyDirs(env, r1.1, dest, f, 0);
        CopyDirsProgressed(env, r1.1, dest, f, 0);
        ProgressedThen(env, w, r1.1, r2.1, fp, dp, r2.0);
      }
    }
  }

  lemma {:induction false} CopyDirsProgressed(env: Env, w: World, dest: string, f: Folder, i: nat)
    requires i <= |f.dirs|
    ensures Progressed(env, w, CopyDirs(env, w, dest, f, i).1, DirsPlanned(dest, f, i), CopyDirs(env, w, dest, f, i).0)
    decreases f, |f.dirs| - i
  {
    if i == |f.dirs| {
      ProgressedNothing(env, w, w);
    } else if Requested(env, w.probes) {
      ProgressedCancel(env, w, DirsPlanned(dest, f, i));
    } else {
      var d := f.dirs[i];
      var child := RemoteChild(dest, d.name);
      var r1 := CopyFolder(env, Probe(w), d.content, child);
      CopyFolderProgressed(env, Probe(w), d.content, child);
      ProgressedAfterProbe(env, w, r1.1, Planned(d.content, child), r1.0);
      if r1.0 != Completed {
        ProgressedStop(env, w, r1.1, Planned(d.content, child), DirsPlanned(dest, f, i + 1), r1.0);
      } else {
        var r2 := CopyDirs(env, r1.1, dest, f, i + 1);
        CopyDirsProgressed(env, r1.1, dest, f, i + 1);
        ProgressedThen(env, w, r1.1, r2.1, Planned(d.content, child), DirsPlanned(dest, f, i + 1), r2.0);
      }
    }
  }

  /** The planned uploads carry every byte of the tree. */
  lemma {:induction false} PlannedBytes(f: Folder, dest: string)
    ensures Bytes(Planned(f, dest)) == TreeSize(f)
    decreases f, |f.dirs| + 1
  {
    FilesPlannedBytes(dest, f.files, 0);
    DirsPlannedBytes(dest, f, 0);
    BytesAppend(FilesPlanned(dest, f.files, 0), DirsPlanned(dest, f, 0));
    assert f.files[0..] == f.files;
  }

  lemma {:induction false} DirsPlannedBytes(dest: string, f: Folder, i: nat)
    requires i <= |f.dirs|
    ensures Bytes(DirsPlanned(dest, f, i)) == DirsSize(f, i)
    decreases f, |f.dirs| - i
  {
    if i < |f.dirs| {
      var child := RemoteChild(dest, f.dirs[i].name);
      PlannedBytes(f.dirs[i].content, child);
      DirsPlannedBytes(dest, f, i + 1);
      BytesAppend(Planned(f.dirs[i].content, child), DirsPlanned(dest, f, i + 1));
    }
  }

  lemma {:induction false} FilesPlannedBytes(dest: string, files: seq<LocalFile>, i: nat)
    requires i <= |files|
    ensures Bytes(FilesPlanned(dest, files, i)) == SizeOf(files[i..])
    decreases |files| - i
  {
    if i < |files| {
      var u := UploadOf(dest, files[i]);
      FilesPlannedBytes(dest, files, i + 1);
      FilesPlannedCons(dest, files, i);
      BytesAppend([u], FilesPlanned(dest, files, i + 1));
      assert Bytes([u]) == u.size by {
        assert [u][..0] == [];
      }
      assert files[i..] == [files[i]] + files[i + 1..];
      SizeOfAppend([files[i]], files[i + 1..]);
      assert SizeOf([files[i]]) == files[i].size by {
        assert [files[i]][..0] == [];
      }
    } else {
      assert files[i..] == [];
    }
  }

  /** A folder's own files come first in its plan, in listing order, each into the folder. */
  lemma OwnFilesFirst(f: Folder, dest: string, k: nat)
    requires k < |f.files|
    ensures k < |Planned(f, dest)| && Planned(f, dest)[k] == UploadOf(dest, f.files[k])
  {
    assert Planned(f, dest)[k] == FilesPlanned(dest, f.files, 0)[k];
  }

  /** No cancellation, no refused folder and no throwing call among the next ones: the folder
      copy completes, uploads the whole plan, one call per file, and counts every byte. */
  lemma CopyFolderCleanRun(env: Env, w: World, f: Folder, dest: string)
    requires env.cancelFrom.None? && env.refused == {}
    requires NoFailIn(env, w.attempts, w.attempts + |Planned(f, dest)|)
    ensures var r := CopyFolder(env, w, f, dest);
      && r.0 == Completed
      && r.1.uploads == w.uploads + Planned(f, dest)
      && r.1.attempts == w.attempts + |Planned(f, dest)|
      && r.1.copied == w.copied + TreeSize(f)
  {
    var r := CopyFolder(env, w, f, dest);
    CopyFolderProgressed(env, w, f, dest);
    CleanOutcome(env, w, r.1, Planned(f, dest), r.0);
    PlannedBytes(f, dest);
  }

  lemma CleanOutcome(env: Env, w: World, w2: World, planned: seq<Upload>, o: Outcome)
    requires Progressed(env, w, w2, planned, o)
    requires env.cancelFrom.None? && env.refused == {}
    requires NoFailIn(env, w.attempts, w.attempts + |planned|)
    ensures o == Completed && w2.uploads == w.uploads + planned
    ensures w2.attempts == w.attempts + |planned| && w2.copied == w.copied + Bytes(planned)
  {
    assert planned[..|planned|] == planned;
  }

  /** When the k-th upload call of the copy throws, and nothing else goes wrong, the copy ends
      Faulted right there, with exactly the first k - 1 planned files on the device and their
      bytes counted. */
  lemma CopyFolderFaultAt(env: Env, w: World, f: Folder, dest: string, k: nat)
    requires env.cancelFrom.None? && env.refused == {}
    requires 1 <= k <= |Planned(f, dest)| && env.failOn == Some(w.attempts + k)
    ensures var r := CopyFolder(env, w, f, dest);
      && r.0 == Faulted
      && r.1.uploads == w.uploads + Planned(f, dest)[..k - 1]
      && r.1.attempts == w.attempts + k
      && r.1.copied == w.copied + Bytes(Planned(f, dest)[..k - 1])
  {
    var r := CopyFolder(env, w, f, dest);
    CopyFolderProgressed(env, w, f, dest);
    FaultOutcome(env, w, r.1, Planned(f, dest), r.0, k);
  }

  lemma FaultOutcome(env: Env, w: World, w2: World, planned: seq<Upload>, o: Outcome, k: nat)
    requires Progressed(env, w, w2, planned, o)
    requires env.cancelFrom.None? && env.refused == {}
    requires 1 <= k <= |planned| && env.failOn == Some(w.attempts + k)
    ensures o == Faulted && w2.uploads == w.uploads + planned[..k - 1]
    ensures w2.attempts == w.attempts + k && w2.copied == w.copied + Bytes(planned[..k - 1])
  {
  }

  /** Cancellation requested before the copy starts: no upload call is made, and the copy
      can only fault on a refused folder. */
  lemma CopyFolderCancelledBefore(env: Env, w: World, f: Folder, dest: string)
    requires Requested(env, w.probes)
    ensures var r := CopyFolder(env, w, f, dest);
      && r.1.uploads == w.uploads && r.1.attempts == w.attempts && r.1.copied == w.copied
      && (r.0 == Faulted ==> env.refused != {})
  {
    var r := CopyFolder(env, w, f, dest);
    CopyFolderProgressed(env, w, f, dest);
    CancelOutcome(env, w, r.1, Planned(f, dest), r.0);
  }

  lemma CancelOutcome(env: Env, w: World, w2: World, planned: seq<Upload>, o: Outcome)
    requires Progressed(env, w, w2, planned, o)
    requires Requested(env, w.probes)
    ensures w2.uploads == w.uploads && w2.attempts == w.attempts && w2.copied == w.copied
    ensures o == Faulted ==> env.refused != {}
  {
    assert planned[..0] == [];
  }
}
