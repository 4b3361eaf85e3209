/**
 * The copy dialog as objects whose fields change step by step: the device (its folders, the
 * uploads it received, the upload calls made on it) and the copy session (cancellation checks
 * made, `_totalSize`, `_copiedBytes`, the bar value, whether the staging folder exists). Each
 * method is proved to leave the objects in exactly the state the matching function of
 * `TransferSpec` computes, so everything proved about those functions holds of the methods.
 */
module TransferEngine {
  import opened Wrappers
  import opened Paths
  import opened Progress
  import opened Staging
  import opened TransferSpec

  /** The portable device. Which folder creations throw and which upload call throws are
      fixed when the device is connected. */
  class Device {
    var dirs: set<string>
    var uploads: seq<Upload>
    var attempts: nat
    const refused: set<string>
    const failOn: Option<nat>

    constructor(existing: set<string>, refused: set<string>, failOn: Option<nat>)
      ensures dirs == existing && uploads == [] && attempts == 0
      ensures this.refused == refused && this.failOn == failOn
    {
      dirs := existing;
      uploads := [];
      attempts := 0;
      this.refused := refused;
      this.failOn := failOn;
    }

    predicate DirectoryExists(path: string)
      reads this
    {
      path in dirs
    }

    /** `device.CreateDirectory(path)`: false stands for the exception of a refused folder. */
    method CreateDirectory(path: string) returns (ok: bool)
      modifies this
      ensures ok == (path !in refused)
      ensures dirs == if ok then old(dirs) + {path} else old(dirs)
      ensures uploads == old(uploads) && attempts == old(attempts)
    {
      ok := path !in refused;
      if ok {
        dirs := dirs + {path};
      }
    }

    /** `device.UploadFile(file, destFile)` to the device path `DevicePath(u)`: the call is
        counted, and unless it is the one that throws (false), the file is on the device. */
    method UploadFile(u: Upload) returns (ok: bool)
      modifies this
      ensures attempts == old(attempts) + 1
      ensures ok == (failOn != Some(attempts))
      ensures uploads == if ok then old(uploads) + [u] else old(uploads)
      ensures dirs == old(dirs)
    {
      attempts := attempts + 1;
      ok := failOn != Some(attempts);
      if ok {
        uploads := uploads + [u];
      }
    }
  }

  /** The copy dialog, `ImprovedCopyProgressForm`, during one copy. From which check on
      cancellation is requested is fixed for the session. */
  class CopySession {
    var probes: nat
    var total: nat
    var copied: nat
    var bar: int
    var staging: bool
    const cancelFrom: Option<nat>

    constructor(cancelFrom: Option<nat>)
      ensures probes == 0 && total == 0 && copied == 0 && bar == 0 && !staging
      ensures this.cancelFrom == cancelFrom
    {
      probes := 0;
      total := 0;
      copied := 0;
      bar := 0;
      staging := false;
      this.cancelFrom := cancelFrom;
    }

    /** What the environment decides for a copy onto `device` in this session. */
    function EnvOf(device: Device): Env
    {
      Env(device.refused, device.failOn, cancelFrom)
    }

    /** The state of the device and the session as the specification sees it. */
    function Snap(device: Device): World
      reads this, device
    {
      World(device.dirs, device.uploads, device.attempts, probes, copied, total, bar, staging)
    }

    /** `_cancellationTokenSource.IsCancellationRequested`, one more check made. */
    method IsCancellationRequested() returns (b: bool)
      modifies this
      ensures b == (cancelFrom.Some? && cancelFrom.value <= old(probes))
      ensures probes == old(probes) + 1
      ensures total == old(total) && copied == old(copied) && bar == old(bar) && staging == old(staging)
    {
      b := cancelFrom.Some? && cancelFrom.value <= probes;
      probes := probes + 1;
    }

    /** `UpdateProgress(status, current, total)`: the file band on the bar. */
    method UpdateProgress(current: nat, count: nat)
      modifies this
      ensures bar == FileBand(current, count)
      ensures probes == old(probes) && total == old(total) && copied == old(copied) && staging == old(staging)
    {
      var percentage := 15 + (current * 65) / AtLeastOne(count);
      bar := if percentage < 80 then percentage else 80;
    }

    /** `UpdateByteProgress()`: the byte band on the bar, only when the total is positive. */
    method UpdateByteProgress()
      modifies this
      ensures bar == if total > 0 then ByteBand(copied, total) else old(bar)
      ensures probes == old(probes) && total == old(total) && copied == old(copied) && staging == old(staging)
    {
      if total > 0 {
        var percentage := (copied * 100) / total;
        bar := if percentage < 99 then percentage else 99;
      }
    }

    /** The body of the file loop for file `i` once no cancellation was found: the file band
        for file `i + 1` of `|files|`, the upload, and, when it went through, the file's length
        added to `_copiedBytes` and the byte band. */
    method UploadNext(device: Device, dest: string, files: seq<LocalFile>, i: nat) returns (ok: bool)
      requires i < |files|
      modifies this, device
      ensures (ok, Snap(device)) == UploadStep(EnvOf(device), old(Snap(device)), dest, files, i)
    {
      UpdateProgress(i + 1, |files|);
      ok := device.UploadFile(UploadOf(dest, files[i]));
      if ok {
        copied := copied + files[i].size;
        UpdateByteProgress();
      }
    }

    /** The file loop of `CopyDaisyFolderAsync`: for each file, a check for cancellation,
        then the upload; the first cancellation or throwing upload ends the loop. */
    method CopyFiles(device: Device, dest: string, files: seq<LocalFile>) returns (o: Outcome)
      modifies this, device
      ensures (o, Snap(device)) == TransferSpec.CopyFiles(EnvOf(device), old(Snap(device)), dest, files, 0)
    {
      ghost var env := EnvOf(device);
      ghost var spec := TransferSpec.CopyFiles(env, Snap(device), dest, files, 0);
      var i := 0;
      while i < |files|
        invariant 0 <= i <= |files|
        invariant spec == TransferSpec.CopyFiles(env, Snap(device), dest, files, i)
      {
        ghost var w := Snap(device);
        var cancelled := IsCancellationRequested();
        assert Snap(device) == Probe(w);
        if cancelled {
          return Cancelled;
        }
        var ok := UploadNext(device, dest, files, i);
        if !ok {
          return Faulted;
        }
        i := i + 1;
      }
      return Completed;
    }

    /** `CopyDaisyFolderAsync(device, src, dest)`, with the outcome for the Boolean result or
        the exception: make sure the device folder exists, upload the files, then copy each
        subfolder by a recursive call, stopping at the first outcome other than Completed. */
    method CopyFolder(device: Device, src: Folder, dest: string) returns (o: Outcome)
      modifies this, device
      ensures (o, Snap(device)) == TransferSpec.CopyFolder(EnvOf(device), old(Snap(device)), src, dest)
      decreases src
    {
      ghost var env := EnvOf(device);
      ghost var w0 := Snap(device);
      ghost var spec := TransferSpec.CopyFolder(env, w0, src, dest);
      if !device.DirectoryExists(dest) {
        var made := device.CreateDirectory(dest);
        if !made {
          return Faulted;
        }
      }
      assert EnsureFolder(env, w0, dest) == Some(Snap(device));
      o := CopyFiles(device, dest, src.files);
      if o != Completed {
        return;
      }
      var j := 0;
      while j < |src.dirs|
        invariant 0 <= j <= |src.dirs|
        invariant spec == CopyDirs(env, Snap(device), dest, src, j)
      {
        ghost var w := Snap(device);
        var cancelled := IsCancellationRequested();
        assert Snap(device) == Probe(w);
        if cancelled {
          return Cancelled;
        }
        var d := src.dirs[j];
        assert d in src.dirs;
        o := CopyFolder(device, d.content, RemoteChild(dest, d.name));
        if o != Completed {
          return;
        }
        j := j + 1;
      }
      return Completed;
    }

    /** The phases of `CopyDaisyBookAsync` between making the staging folder and the cleanup,
        up to the destination folder: extraction (`staged` is None when it throws), a check,
        sizing, a check, creating the destination; each `return false` and each exception an
        exit with false. */
    method BookPhases(device: Device, staged: Option<Folder>, dest: string) returns (ok: bool)
      modifies this, device
      ensures (ok, Snap(device)) == TransferSpec.BookPhases(EnvOf(device), old(Snap(device)), staged, dest)
    {
      if staged.None? {
        return false;
      }
      ghost var w := Snap(device);
      var cancelled := IsCancellationRequested();
      assert Snap(device) == Probe(w);
      if cancelled {
        return false;
      }
      bar := 5;
      total := DirectorySize(staged.value);
      ghost var w1 := Snap(device);
      assert w1 == Probe(w).(bar := 5, total := TreeSize(staged.value));
      cancelled := IsCancellationRequested();
      assert Snap(device) == Probe(w1);
      if cancelled {
        return false;
      }
      bar := 10;
      assert Snap(device) == Probe(w1).(bar := 10);
      var made := device.CreateDirectory(dest);
      if !made {
        return false;
      }
      ok := DestinationPhases(device, staged.value, dest);
    }

    /** The phases once the destination folder exists: a check, the folder copy from a bar of
        15, and, when it completed, a last check before the bar is set to 100; an exception in
        the copy is an exit with false. */
    method DestinationPhases(device: Device, staged: Folder, dest: string) returns (ok: bool)
      modifies this, device
      ensures (ok, Snap(device)) == TransferSpec.DestinationPhases(EnvOf(device), old(Snap(device)), staged, dest)
    {
      ghost var w := Snap(device);
      var cancelled := IsCancellationRequested();
      assert Snap(device) == Probe(w);
      if cancelled {
        return false;
      }
      bar := 15;
      var o := CopyFolder(device, staged, dest);
      if o != Completed {
        return false;
      }
      ghost var w1 := Snap(device);
      cancelled := IsCancellationRequested();
      assert Snap(device) == Probe(w1);
      if cancelled {
        return false;
      }
      bar := 100;
      return true;
    }

    /** `CopyDaisyBookAsync(device, book, dest)` on the tree the archive unpacks to (None when
        extraction throws): a fresh cancellation source, `_copiedBytes` and the bar reset, the
        staging folder made; the phases; then the staging folder deleted on every exit, unless
        deleting it throws, which is ignored. */
    method CopyBook(device: Device, staged: Option<Folder>, dest: string, deleteFails: bool) returns (ok: bool)
      modifies this, device
      ensures (ok, Snap(device)) == TransferSpec.CopyBook(EnvOf(device), old(Snap(device)), staged, dest, deleteFails)
    {
      probes := 0;
      copied := 0;
      bar := 0;
      staging := true;
      ok := BookPhases(device, staged, dest);
      staging := deleteFails;
    }
  }
}
