/**
 * What `CopyDaisyBookAsync` promises about one book: success means the whole staged tree is
 * on the device under the destination, `_copiedBytes` equals `_totalSize` and the bar shows
 * 100; every other exit leaves the bar within 0..99; the staging folder is gone on every exit
 * unless deleting it threw.
 */
module BookProofs {
  import opened Wrappers
  import opened Staging
  import opened TransferSpec
  import opened TransferProofs

  /** A run that made progress and ended Completed has uploaded all of its plan and counted
      all of its bytes. */
  lemma CompletedOutcome(env: Env, w: World, w2: World, planned: seq<Upload>)
    requires Progressed(env, w, w2, planned, Completed)
    ensures w2.uploads == w.uploads + planned && w2.copied == w.copied + Bytes(planned)
  {
    assert planned[..|planned|] == planned;
  }

  /** The phases once the destination folder exists: success comes only from a completed
      folder copy followed by a check that found no cancellation, and then everything staged is
      on the device and counted and the bar shows 100; otherwise the bar stays within 0..99. */
  lemma DestinationOutcome(env: Env, w: World, f: Folder, dest: string)
    requires BarInRange(w)
    ensures var r := DestinationPhases(env, w, f, dest);
      && r.1.staging == w.staging && r.1.total == w.total && w.dirs <= r.1.dirs
      && (FoldersPresent(w) ==> FoldersPresent(r.1))
      && (r.0 ==> && r.1.bar == 100
                  && r.1.uploads == w.uploads + Planned(f, dest)
                  && r.1.copied == w.copied + TreeSize(f)
                  && r.1.probes >= 1 && !Requested(env, r.1.probes - 1))
      && (!r.0 ==> BarInRange(r.1))
  {
    var w0 := Probe(w).(bar := 15);
    var c := CopyFolder(env, w0, f, dest);
    CopyFolderProgressed(env, w0, f, dest);
    PlannedBytes(f, dest);
    if c.0 == Completed {
      CompletedOutcome(env, w0, c.1, Planned(f, dest));
    }
  }

  /** The phases after extraction of a staged tree `f`: success means the destination
      exists, the total is the tree's size, and everything staged is on the device and counted
      with the bar at 100; any other exit leaves the bar within 0..99. */
  lemma BookPhasesOutcome(env: Env, w: World, f: Folder, dest: string)
    requires BarInRange(w)
    ensures var r := BookPhases(env, w, Some(f), dest);
      && r.1.staging == w.staging && w.dirs <= r.1.dirs
      && (FoldersPresent(w) ==> FoldersPresent(r.1))
      && (r.0 ==> && dest in r.1.dirs && r.1.bar == 100 && r.1.total == TreeSize(f)
                  && r.1.copied == w.copied + TreeSize(f)
                  && r.1.uploads == w.uploads + Planned(f, dest)
                  && r.1.probes >= 1 && !Requested(env, r.1.probes - 1))
      && (!r.0 ==> BarInRange(r.1))
  {
    var w1 := Probe(w).(bar := 5, total := TreeSize(f));
    var w2 := Probe(w1).(bar := 10).(dirs := w.dirs + {dest});
    DestinationOutcome(env, w2, f, dest);
  }

  /** `CopyDaisyBookAsync`, every exit: the staging folder is gone unless deleting it threw;
      device folders are only added and every uploaded file sits in one; a failed extraction
      changes nothing on the device; success means a staged tree whose every file was uploaded
      in plan order under `dest`, which exists, with `_copiedBytes == _totalSize` and the bar at
      100, and no check found cancellation; any other exit leaves the bar within 0..99. */
  lemma CopyBookOutcome(env: Env, w: World, staged: Option<Folder>, dest: string, deleteFails: bool)
    ensures var r := CopyBook(env, w, staged, dest, deleteFails);
      && r.1.staging == deleteFails
      && w.dirs <= r.1.dirs
      && (FoldersPresent(w) ==> FoldersPresent(r.1))
      && (staged.None? ==> !r.0 && r.1 == w.(probes := 0, copied := 0, bar := 0, staging := deleteFails))
      && (r.0 ==> && staged.Some? && dest in r.1.dirs && r.1.bar == 100
                  && r.1.total == TreeSize(staged.value) && r.1.copied == r.1.total
                  && r.1.uploads == w.uploads + Planned(staged.value, dest)
                  && r.1.probes >= 1 && !Requested(env, r.1.probes - 1))
      && (!r.0 ==> BarInRange(r.1))
  {
    if staged.Some? {
      BookPhasesOutcome(env, w.(probes := 0, copied := 0, bar := 0, staging := true), staged.value, dest);
    }
  }

  /** The world in which the folder copy of a book starts when no check found cancellation
      and the destination was created. */
  function CopyStart(w: World, f: Folder, dest: string): (s: World)
    ensures s.uploads == w.uploads && s.attempts == w.attempts && s.copied == 0 && s.probes == 3
  {
    World(w.dirs + {dest}, w.uploads, w.attempts, 3, 0, TreeSize(f), 15, true)
  }

  /** Without cancellation, refused folders or a throwing upload, the book is copied: every
      staged file is uploaded, one call each. */
  lemma CopyBookCleanRun(env: Env, w: World, f: Folder, dest: string, deleteFails: bool)
    requires env.cancelFrom.None? && env.refused == {}
    requires NoFailIn(env, w.attempts, w.attempts + |Planned(f, dest)|)
    ensures var r := CopyBook(env, w, Some(f), dest, deleteFails);
      && r.0 && r.1.uploads == w.uploads + Planned(f, dest)
      && r.1.attempts == w.attempts + |Planned(f, dest)| && r.1.copied == TreeSize(f)
  {
    CopyFolderCleanRun(env, CopyStart(w, f, dest), f, dest);
  }

  /** When the k-th upload of the book throws, and nothing else goes wrong, the copy fails
      with exactly the first k - 1 files of the plan on the device and `_copiedBytes` their
      total length. */
  lemma CopyBookFaultAt(env: Env, w: World, f: Folder, dest: string, deleteFails: bool, k: nat)
    requires env.cancelFrom.None? && env.refused == {}
    requires 1 <= k <= |Planned(f, dest)| && env.failOn == Some(w.attempts + k)
    ensures var r := CopyBook(env, w, Some(f), dest, deleteFails);
      && !r.0 && r.1.uploads == w.uploads + Planned(f, dest)[..k - 1]
      && r.1.copied == Bytes(Planned(f, dest)[..k - 1])
      && r.1.staging == deleteFails
  {
    CopyFolderFaultAt(env, CopyStart(w, f, dest), f, dest, k);
  }

  /** Cancellation requested at any of the checks after extraction, after sizing, after
      creating the destination or at the first check of the folder copy: the copy fails without
      a single upload call and with no bytes counted. */
  lemma CopyBookCancelledEarly(env: Env, w: World, f: Folder, dest: string, deleteFails: bool)
    requires env.cancelFrom.Some? && env.cancelFrom.value <= 3
    ensures var r := CopyBook(env, w, Some(f), dest, deleteFails);
      && !r.0 && r.1.uploads == w.uploads && r.1.attempts == w.attempts && r.1.copied == 0
  {
    var s := CopyStart(w, f, dest);
    var c := CopyFolder(env, s, f, dest);
    CopyFolderProgressed(env, s, f, dest);
    CancelOutcome(env, s, c.1, Planned(f, dest), c.0);
  }

  /** A book of two files, `a.mp3` of 1000 bytes and `b.mp3` of 2000, copied without
      incident: both are uploaded into the destination in that order, 3000 bytes are counted
      out of 3000 and the bar shows 100. */
  lemma TwoFileBook(w: World, dest: string)
    ensures var f := Folder([LocalFile("a.mp3", 1000), LocalFile("b.mp3", 2000)], []);
      var r := CopyBook(Env({}, None, None), w, Some(f), dest, false);
      && r.0 && r.1.total == 3000 && r.1.copied == 3000 && r.1.bar == 100 && !r.1.staging
      && r.1.uploads == w.uploads + [Upload(dest, "a.mp3", 1000), Upload(dest, "b.mp3", 2000)]
  {
    var f := Folder([LocalFile("a.mp3", 1000), LocalFile("b.mp3", 2000)], []);
    var env := Env({}, None, None);
    var plan := [Upload(dest, "a.mp3", 1000), Upload(dest, "b.mp3", 2000)];
    assert FilesPlanned(dest, f.files, 0) == plan;
    assert Planned(f, dest) == plan;
    CopyBookCleanRun(env, w, f, dest, false);
    CopyBookOutcome(env, w, Some(f), dest, false);
    assert SizeOf(f.files) == 3000 by {
      assert f.files[..1] == [LocalFile("a.mp3", 1000)];
    }
  }
}
