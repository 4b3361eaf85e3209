/**
 * The copy dialog's transfer, `CopyDaisyBookAsync` and the recursive `CopyDaisyFolderAsync`,
 * as functions from the state before to the outcome and the state after. The state is a
 * snapshot of the device (its folders, the files uploaded to it, the number of upload calls
 * made) and of the dialog (cancellation checks made, `_copiedBytes`, `_totalSize`, the bar
 * value, whether the staging folder exists). What the environment decides is fixed up front:
 * the device folders whose creation throws, the upload call that throws, and from which
 * cancellation check on the user has asked to cancel.
 */
module TransferSpec {
  import opened Wrappers
  import opened Paths
  import opened Progress
  import opened Staging

  /** One file placed on the device: the device folder it went into, its file name and its
      length. */
  datatype Upload = Upload(folder: string, name: string, size: nat)

  /** How a copy ends: it ran to the end, it saw the cancellation request (`return false`),
      or a device or file call threw. */
  datatype Outcome = Completed | Cancelled | Faulted

  /** What the environment decides: `refused` are the device folders whose creation throws;
      `failOn` is the number of the upload call that throws, counting calls made so far on the
      device from 1; `cancelFrom` is the number of the first cancellation check, counting
      from 0 in this dialog, that finds cancellation requested (it then stays requested). */
  datatype Env = Env(refused: set<string>, failOn: Option<nat>, cancelFrom: Option<nat>)

  datatype World = World(
    dirs: set<string>, uploads: seq<Upload>, attempts: nat,
    probes: nat, copied: nat, total: nat, bar: int, staging: bool)

  /** The check numbered `p` finds cancellation requested. */
  predicate Requested(env: Env, p: nat)
  {
    env.cancelFrom.Some? && env.cancelFrom.value <= p
  }

  /** One cancellation check has been made. */
  function Probe(w: World): (w': World)
    ensures w'.probes == w.probes + 1
  {
    w.(probes := w.probes + 1)
  }

  /** `device.CreateDirectory(path)`: throws for a refused folder, otherwise the folder exists. */
  function CreateDirectory(env: Env, w: World, path: string): (Option<World>)
  {
    if path in env.refused then None else Some(w.(dirs := w.dirs + {path}))
  }

  /** `if (!device.DirectoryExists(dest)) device.CreateDirectory(dest)`. */
  function EnsureFolder(env: Env, w: World, dest: string): (r: Option<World>)
  {
    if dest in w.dirs then Some(w) else CreateDirectory(env, w, dest)
  }

  /** The device upload of `file` into the device folder `dest`. */
  function UploadOf(dest: string, file: LocalFile): Upload
  {
    Upload(dest, file.name, file.size)
  }

  /** The device path the upload call is given:
      `Path.Combine(destinationDirectory, fileName).Replace('\\', '/')`. */
  function DevicePath(u: Upload): string
  {
    RemoteChild(u.folder, u.name)
  }

  /** `UpdateByteProgress`: the byte band, only when the total size is positive. */
  function ByteProgress(w: World): (w': World)
    ensures w' == w || (w' == w.(bar := w'.bar) && 0 <= w'.bar <= 99)
  {
    if w.total > 0 then w.(bar := ByteBand(w.copied, w.total)) else w
  }

  /** The body of the file loop for file `i` of `files`, once the check before it found no
      cancellation: the bar shows file `i + 1` of `|files|` and the upload call is made; when
      it does not throw, the file is on the device, its length is added to `_copiedBytes`
      and the byte band is shown. The flag says whether the call went through. */
  function UploadStep(env: Env, w: World, dest: string, files: seq<LocalFile>, i: nat): (bool, World)
    requires i < |files|
  {
    var w1 := w.(bar := FileBand(i + 1, |files|), attempts := w.attempts + 1);
    if env.failOn == Some(w1.attempts) then (false, w1)
    else (true, ByteProgress(w1.(uploads := w1.uploads + [UploadOf(dest, files[i])],
                                 copied := w1.copied + files[i].size)))
  }

  /** The file loop of `CopyDaisyFolderAsync` from file `i` on: check for cancellation, then
      upload, file after file. */
  function CopyFiles(env: Env, w: World, dest: string, files: seq<LocalFile>, i: nat): (Outcome, World)
    requires i <= |files|
    decreases |files| - i
  {
    if i == |files| then (Completed, w)
    else if Requested(env, w.probes) then (Cancelled, Probe(w))
    else
      var (ok, w1) := UploadStep(env, Probe(w), dest, files, i);
      if !ok then (Faulted, w1) else CopyFiles(env, w1, dest, files, i + 1)
  }

  /** `CopyDaisyFolderAsync(device, f, dest)`: make sure the device folder exists, upload the
      folder's files, then copy its subfolders one by one; the first outcome other than
      Completed ends the copy. */
  function CopyFolder(env: Env, w: World, f: Folder, dest: string): (Outcome, World)
    decreases f, |f.dirs| + 1
  {
    var created := EnsureFolder(env, w, dest);
    if created.None? then (Faulted, w)
    else
      var (o, w1) := CopyFiles(env, created.value, dest, f.files, 0);
      if o != Completed then (o, w1) else CopyDirs(env, w1, dest, f, 0)
  }

  /** The subfolder loop of `CopyDaisyFolderAsync` from subfolder `i` on: check for
      cancellation, then copy the subfolder into the device path of the same name. */
  function CopyDirs(env: Env, w: World, dest: string, f: Folder, i: nat): (Outcome, World)
    requires i <= |f.dirs|
    decreases f, |f.dirs| - i
  {
    if i == |f.dirs| then (Completed, w)
    else if Requested(env, w.probes) then (Cancelled, Probe(w))
    else
      var d := f.dirs[i];
      var (o, w1) := CopyFolder(env, Probe(w), d.content, RemoteChild(dest, d.name));
      if o != Completed then (o, w1) else CopyDirs(env, w1, dest, f, i + 1)
  }

  /** The phases of `CopyDaisyBookAsync` after the staging folder is made: extraction
      (`staged` is None when it throws), a check, sizing, a check, creating the destination,
      a check, the folder copy, and, when that completed, a last check before success. */
  function BookPhases(env: Env, w: World, staged: Option<Folder>, dest: string): (bool, World)
  {
    if staged.None? then (false, w)
    else if Requested(env, w.probes) then (false, Probe(w))
    else
      var w1 := Probe(w).(bar := 5, total := TreeSize(staged.value));
      if Requested(env, w1.probes) then (false, Probe(w1))
      else
        var created := CreateDirectory(env, Probe(w1).(bar := 10), dest);
        if created.None? then (false, Probe(w1).(bar := 10))
        else DestinationPhases(env, created.value, staged.value, dest)
  }

  /** The phases once the destination folder exists: a check, the folder copy from a bar of
      15, and, when that completed, a last check before the bar is set to 100. */
  function DestinationPhases(env: Env, w: World, staged: Folder, dest: string): (bool, World)
  {
    if Requested(env, w.probes) then (false, Probe(w))
    else
      var (o, w1) := CopyFolder(env, Probe(w).(bar := 15), staged, dest);
      if o != Completed then (false, w1)
      else if Requested(env, w1.probes) then (false, Probe(w1))
      else (true, Probe(w1).(bar := 100))
  }

  /** `CopyDaisyBookAsync`: a fresh cancellation source, `_copiedBytes` reset, the bar at 0
      and the staging folder made; then the phases; then, on every exit, the staging folder
      deleted, unless deleting it throws (`deleteFails`), which is ignored. */
  function CopyBook(env: Env, w: World, staged: Option<Folder>, dest: string, deleteFails: bool): (bool, World)
  {
    var (ok, w1) := BookPhases(env, w.(probes := 0, copied := 0, bar := 0, staging := true), staged, dest);
    (ok, w1.(staging := deleteFails))
  }
}
