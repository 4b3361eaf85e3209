# DAISY book copier: a verified model of its core

The application is a small Windows Forms tool. It finds DAISY 2.02 talking books in the user's
Downloads folder and copies one of them to a portable player (a Victor Stream) that is
connected over MTP. A book is a `.zip` archive. The archive counts as a book when it holds an
`ncc.html` navigation document. Copying unpacks the archive into a staging folder, sizes it,
creates the destination folder on the device, and uploads the tree file by file while a
progress dialog shows a bar.

This project models the logic of `Form1.cs`:

- **Metadata.** `ExtractMetadata` reads a `<meta name="…" content="…">` value.
  `GetSafeFileName` turns a title into a folder name. `GetDaisyBookInfo` decides whether an
  archive is a book and builds its descriptor (module `Metadata`, over the string helpers in
  `Text` and the Windows path functions in `Paths`).
- **Scan.** The scan loop of `LoadDaisyBooksAsync` filters the archive list into book
  descriptors (module `Catalog`).
- **Destination.** `CopySelectedBookAsync` builds the destination path and checks whether the
  folder already exists (module `Paths`).
- **Transfer.** The copy dialog's `CopyDaisyBookAsync`, the recursive `CopyDaisyFolderAsync`
  and `GetDirectorySize` are modelled twice:
  - as functions from the state before to the outcome and the state after (`TransferSpec`,
    over the staged tree of `Staging`);
  - as two classes whose fields change step by step, `Device` and `CopySession`
    (`TransferEngine`). Each method is proved to end in exactly the state the matching
    function computes.
- **Progress.** The bar formulas of `UpdateProgress` and `UpdateByteProgress` (module
  `Progress`).

The transfer is judged against a reference plan, `TransferProofs.Planned`. The plan lists
every staged file with the device folder it goes to. A folder's own files come before its
subfolders, and subfolders come in listing order. Every run of the folder copy, however it
ends, satisfies `Progressed`:

- it put a prefix of the plan on the device;
- it added exactly that prefix's bytes to `_copiedBytes`;
- it made one upload call per new file, plus the call that threw, if one did;
- it kept the bar within 0..99 and every uploaded file inside an existing device folder.

The clean run, the failing k-th upload, early cancellation and the book-level outcome follow
from `Progressed` (`TransferProofs`, `BookProofs`).

The environment is fixed up front, in the `Env` value and in the classes' constants:

- the device folders whose creation throws;
- the number of the upload call that throws;
- the number of the first cancellation check that finds cancellation requested. Once
  requested, cancellation stays requested.

Two things are parameters instead:

- the unpacked tree, `None` when extraction throws;
- whether deleting the staging folder throws.

A descriptor's folder name can be empty: `Path.GetFileNameWithoutExtension` of an archive
named `.zip` is empty, and a marker document without a title falls back to it.
`Metadata.EmptyFolderName` exhibits this.

## Model

| member | source | states |
|---|---|---|
| Text.IndexOfFirst | Form1.cs:454 | the ordinal `IndexOf` result is the first occurrence at or after the start; None means no occurrence there at all |
| Text.Trim | Form1.cs:465 | the result is no longer than the input, has no white space at either end, and is empty exactly when the input is all white space |
| Text.TrimCharacterised | Form1.cs:465 | the trimmed string is exactly the slice between the leading and the trailing white space |
| Text.TrimKeepsAbsent | Form1.cs:465 | trimming introduces no character the input lacked |
| Text.EqualsIgnoreCaseIndexwise | Form1.cs:391 | the case-insensitive comparison holds exactly when the lengths agree and every position agrees after upper-casing |
| Text.ReplaceChar | Form1.cs:674 | `Replace` keeps the length and replaces exactly the occurrences of the character, position by position |
| Text.ReplaceCharAppend | Form1.cs:674 | replacing distributes over concatenation |
| Paths.FileNameSuffix | Form1.cs:686 | `Path.GetFileName` is the suffix after the last separator, and it holds no separator |
| Paths.FileNameOfAppend | Form1.cs:686 | the file name of a folder path ending in a separator, followed by a separator-free name, is that name |
| Paths.StripExtension | Form1.cs:411 | the result is a prefix of the name, cut at the last '.' when there is one and otherwise the whole name |
| Paths.FileNameWithoutExtension | Form1.cs:411 | `Path.GetFileNameWithoutExtension` is a separator-free prefix of the file name |
| Paths.RemoteChildShape | Form1.cs:991 | the device path of a child is the folder with '/' for '\\', a '/' added unless one is there, then the child's name |
| Paths.RemoteChildNests | Form1.cs:1021-1022 | the device path of a subfolder is longer than its parent, starts with the parent in device form, and its file name is the subfolder's name |
| Paths.DestinationPath | Form1.cs:674-678 | backslashes become '/', a trailing '/' is added only when missing, and the result ends in '/' with no backslash |
| Paths.DestinationPathIdempotent | Form1.cs:674-678 | normalising a normalised destination changes nothing |
| Paths.DestinationFolderName | Form1.cs:679 | the file name of the destination folder is the book's folder name |
| Paths.AnyNamedExists | Form1.cs:686 | the `Any` scan is true exactly when some listed folder's file name equals the folder name |
| Paths.FolderExistsWhenListed | Form1.cs:685-686 | when the destination folder itself is listed, the exists check reports it |
| Metadata.ExtractMetadata | Form1.cs:460-465 | the extracted value never contains a '"' |
| Metadata.ExtractMetadataAbsent | Form1.cs:453-457 | without an occurrence of `<meta name="X" content="` the result is empty |
| Metadata.ExtractMetadataUnclosed | Form1.cs:459-463 | when no '"' follows the first occurrence of the prefix, the result is empty |
| Metadata.ExtractMetadataFound | Form1.cs:453-465 | otherwise the result is the trimmed text between the end of the prefix's first occurrence and the next '"' |
| Metadata.ExtractMetadataOf | Form1.cs:450-466 | a document whose first prefix is followed by a trimmed, quote-free value and a '"' yields exactly that value |
| Metadata.QuotedValueAt | Form1.cs:460-465 | when the first '"' at or after the start stands at `e`, the value read is the trimmed text from the start up to `e` |
| Metadata.Split | Form1.cs:471 | `Split` yields at least one part, and no part contains a separator character |
| Metadata.JoinSplit | Form1.cs:471 | joining the parts with '_' equals replacing each invalid character by '_', one for one |
| Metadata.MapInvalid | Form1.cs:471 | the one-for-one replacement keeps the length and replaces exactly the invalid characters |
| Metadata.GetSafeFileName | Form1.cs:468-480 | the folder name has at most 50 characters and is the first min(50, n) characters of the replaced input |
| Metadata.SafeFileNameValid | Form1.cs:471-479 | with '_' not invalid, the folder name contains no invalid character |
| Metadata.SafeFileNameKeepsValid | Form1.cs:471-479 | an input of at most 50 characters with no invalid character is returned unchanged |
| Metadata.SafeFileNameIdempotent | Form1.cs:468-480 | sanitising a sanitised name changes nothing |
| Metadata.FindMarker | Form1.cs:390-391 | `FirstOrDefault` finds the first entry whose file name equals "ncc.html" ignoring case, or reports that none does |
| Metadata.DescribeBook | Form1.cs:405-426 | the title falls back to the archive's base name and the author to "Tuntematon" when empty; the folder name is the sanitised title |
| Metadata.GetDaisyBookInfo | Form1.cs:375-448 | an unreadable archive or one without a marker entry gives null; a descriptor has a non-empty author and the sanitised title as folder name |
| Metadata.BookFromMarker | Form1.cs:390-426 | the first marker entry decides: unreadable gives null, readable gives the book its document describes |
| Metadata.BookFolderNameValid | Form1.cs:425 | a descriptor's folder name has at most 50 characters and no invalid character |
| Metadata.VoicesBook | Form1.cs:375-448 | `book1.zip` holding `book1/NCC.HTML` with title "Voices" and creator "A. Author" gives that descriptor |
| Metadata.EmptyFolderName | Form1.cs:409-412 | an archive named `.zip` with a title-less marker document gets the empty folder name |
| Catalog.UnlistedNotABook | Form1.cs:387-433 | a path the file system does not hold cannot be opened, so it gives no descriptor |
| Catalog.Infos | Form1.cs:336-340 | one `GetDaisyBookInfo` result per path, in order |
| Catalog.Scan | Form1.cs:332-353 | the loop returns exactly the non-null descriptors of the paths, in order |
| Catalog.ScanCharacterised | Form1.cs:336-350 | the result is the in-order subsequence of the paths with a non-null descriptor, at strictly increasing positions |
| Catalog.ScanComplete | Form1.cs:340-344 | every non-null descriptor is collected |
| Catalog.ScanSound | Form1.cs:340-344 | every collected descriptor comes from some path |
| Catalog.ScanSkipsFailures | Form1.cs:338-349 | a failing or non-book path changes nothing about what the other paths give |
| Catalog.ShownList | Form1.cs:317-367 | after a scan the list shows the no-archive placeholder for an empty listing, the no-book placeholder when no archive is a book, and otherwise a line for every book archive and only for book archives |
| Catalog.OneBookAmongTwo | Form1.cs:336-350 | a book archive and an archive without a marker give exactly the book's descriptor |
| Progress.FileBand | Form1.cs:1042-1044 | the file band lies within 15..80 |
| Progress.FileBandFloor | Form1.cs:1042-1044 | the file band is 15 plus the whole 65ths of the folder done, and it reaches 80 exactly at the last file |
| Progress.FileBandMonotone | Form1.cs:1042-1044 | later files never lower the file band |
| Progress.FileBandLastFile | Form1.cs:1042-1044 | the last file of a non-empty folder shows 80 |
| Progress.ByteBand | Form1.cs:1055-1058 | the byte band lies within 0..99 |
| Progress.ByteBandFloor | Form1.cs:1055-1058 | the byte band is the whole percentage copied, and it reaches 99 exactly at 99 per cent |
| Progress.ByteBandMonotone | Form1.cs:1055-1058 | more bytes copied never lower the byte band |
| Progress.ByteBandAllCopied | Form1.cs:1055-1058 | with every byte copied the band stops at 99 |
| Staging.AllFilesSize | Form1.cs:1071-1074 | the flat list of every file below the root has the tree's total length |
| Staging.SizeOfPermutation | Form1.cs:1071 | the total does not depend on the order in which the files are listed |
| Staging.DirectorySize | Form1.cs:1066-1077 | the loop accumulates the total length of every file in the tree |
| TransferSpec.ByteProgress | Form1.cs:1055-1058 | showing the byte band changes nothing but the bar, and any value it sets lies within 0..99 |
| TransferProofs.UploadStepProgressed | Form1.cs:989-1012 | a file's upload either goes through, putting exactly that file on the device and counting its bytes, or throws with nothing uploaded or counted |
| TransferProofs.CopyFilesProgressed | Form1.cs:984-1013 | the file loop puts a prefix of the folder's file plan on the device, counts exactly its bytes, and does all of it when it completes |
| TransferProofs.EnsureFolderProgressed | Form1.cs:971-974 | the check and creation add exactly that folder and change nothing else, and they fail exactly when the folder is missing and its creation throws |
| TransferProofs.CopyFolderProgressed | Form1.cs:968-1031 | every run puts a prefix of the plan on the device, counts exactly its bytes and makes one call per upload; the whole plan when it completes; Cancelled only after a check that found cancellation |
| TransferProofs.CopyDirsProgressed | Form1.cs:1016-1028 | the subfolder loop does the same for the subfolders' plans in order, and stops at the first subfolder that does not complete |
| TransferProofs.OwnFilesFirst | Form1.cs:984-1028 | a folder's own files come first in the plan, in listing order, into the folder itself |
| TransferProofs.DevicePathOfUpload | Form1.cs:990-991 | a file's device path lies inside its device folder and ends in the file's name |
| TransferProofs.PlannedBytes | Form1.cs:1003 | the plan's bytes are the staged tree's total length |
| TransferProofs.CopyFolderCleanRun | Form1.cs:968-1031 | with no cancellation, refusal or throwing upload, the copy completes, uploads the whole plan with one call each, and counts the tree's total length |
| TransferProofs.CopyFolderFaultAt | Form1.cs:997-1009 | when the k-th upload throws, exactly the first k-1 files are on the device and their bytes counted |
| TransferProofs.CopyFolderCancelledBefore | Form1.cs:986-987 | with cancellation requested at the start, no upload call is made and nothing is counted |
| BookProofs.DestinationOutcome | Form1.cs:917-931 | success needs a completed folder copy and a final check without cancellation, and then everything staged is on the device, counted, and the bar shows 100 |
| BookProofs.BookPhasesOutcome | Form1.cs:890-944 | success means the destination exists, the total is the tree's size and all of it is uploaded; any other exit leaves the bar within 0..99 |
| BookProofs.CopyBookOutcome | Form1.cs:859-966 | on every exit the staging folder is deleted unless deletion throws; failed extraction uploads nothing; success means all files are uploaded with `_copiedBytes == _totalSize` and the bar at 100, and no check found cancellation |
| BookProofs.CopyBookCleanRun | Form1.cs:859-966 | without cancellation, refusal or throwing upload, the book copy succeeds with every staged file uploaded once |
| BookProofs.CopyBookFaultAt | Form1.cs:997-1009 | when the k-th upload throws, the book copy fails with the first k-1 files on the device and `_copiedBytes` their total |
| BookProofs.CopyBookCancelledEarly | Form1.cs:890-918 | cancellation seen after extraction, after sizing, after creating the destination or at the first check of the copy fails the book copy with no upload call |
| BookProofs.TwoFileBook | Form1.cs:859-966 | two files of 1000 and 2000 bytes are uploaded in order, 3000 of 3000 bytes are counted and the bar shows 100 |
| TransferEngine.Device.CreateDirectory | Form1.cs:909 | the device folder exists afterwards unless its creation throws |
| TransferEngine.Device.UploadFile | Form1.cs:1000 | each call is counted, and the file is on the device unless this call throws |
| TransferEngine.CopySession.IsCancellationRequested | Form1.cs:986 | the answer is the environment's for this check, and one more check is counted |
| TransferEngine.CopySession.UpdateProgress | Form1.cs:1042-1044 | the bar shows the file band |
| TransferEngine.CopySession.UpdateByteProgress | Form1.cs:1055-1058 | the bar shows the byte band when the total is positive and is untouched otherwise |
| TransferEngine.CopySession.UploadNext | Form1.cs:989-1012 | one turn of the file loop leaves device and session exactly as `TransferSpec.UploadStep` says |
| TransferEngine.CopySession.CopyFiles | Form1.cs:984-1013 | the file loop leaves device and session exactly as `TransferSpec.CopyFiles` says |
| TransferEngine.CopySession.CopyFolder | Form1.cs:968-1031 | the recursive folder copy ends exactly as `TransferSpec.CopyFolder` says |
| TransferEngine.CopySession.BookPhases | Form1.cs:870-918 | the phases up to the destination folder end exactly as `TransferSpec.BookPhases` says |
| TransferEngine.CopySession.DestinationPhases | Form1.cs:917-944 | the phases from the destination folder on end exactly as `TransferSpec.DestinationPhases` says |
| TransferEngine.CopySession.CopyBook | Form1.cs:859-966 | the whole book copy, cleanup included, ends exactly as `TransferSpec.CopyBook` says |

## Left out

- The Windows Forms user interface, the settings file, device enumeration and connection,
  and interactive folder browsing. These are presentation and I/O, with no logic to state.
- Threading (`Task.Run`, `BeginInvoke`, `Interlocked.Add`). Uploads happen strictly one at a
  time, so the model is sequential. `CancellationTokenSource` becomes a fixed answer for
  each check.
- Zip decompression and file reading. An archive is given as its entries. The unpacked tree is
  a parameter of the book copy, `None` when extraction throws. A failure to create the staging
  folder counts as a failed extraction.
- The staging folder on disk. It is a Boolean in the session, and whether deleting it throws
  is a parameter.
- Where the staged tree comes from. Its listing order is taken as given: `Folder` lists files
  and subfolders in the order the file system reports them. `Staging.SizeOfPermutation` shows
  that the total size does not depend on that order.
- The status label texts, the message boxes, and the MB figures. The MB figures use floating
  point. The second cancellation check at line 935 only chooses a label, so it is not a
  check in the model.
- The overwrite prompt and the `DeleteDirectory` call (Form1.cs:688-703). These are user
  interaction plus a device call; the name-match predicate is modelled.
- Text.IndexOf: culture-sensitive search is modelled as ordinal search.
- Paths.DestinationPath: the culture-sensitive `EndsWith("/")` (Form1.cs:675) is modelled as
  an ordinal test of the last character.
- Metadata.GetSafeFileName: strings are sequences of Unicode scalar values, so the cut keeps
  50 characters. `Substring(0, 50)` keeps 50 UTF-16 code units. A title with characters
  outside the Basic Multilingual Plane is cut later in the model than in the source, and the
  source can cut such a character in half.
- Metadata.IsMarker: an entry's name is taken after the last `\` or `/`. `ZipArchiveEntry.Name`
  (Form1.cs:391) also splits at ':' in archives made on Windows, and only at '/' in others, so
  an entry `book\ncc.html` of an archive made elsewhere is a marker in the model but not in
  the source.
- Metadata.Split: an empty separator set gives the whole string as its one part, whereas
  .NET's `Split` with no separators splits at white space. The source always passes the
  non-empty set of invalid file-name characters.
- Text.EqualsIgnoreCase: case folding covers ASCII letters only.
- Paths.FileName: a drive prefix such as `C:` is not treated as a separator.
- Progress.FileBand: `current * 65` is taken in unbounded integers. The 32-bit product in
  the source cannot overflow for any realistic number of files.
- Progress.ByteBand: the `(int)` cast of the 64-bit quotient is not modelled. The cap at 99
  applies to the quotient, which is at most 100 whenever no more bytes are counted than the
  total.
- Failures of the local file system during a book copy. `GetDirectorySize` (Form1.cs:897,
  1066-1077), `Directory.GetFiles` and `Directory.GetDirectories` (Form1.cs:977-978),
  `new FileInfo(file).Length` (Form1.cs:1003) and `device.DirectoryExists` (Form1.cs:971) are
  taken never to throw. In the source each throw ends the copy with false, and a throw at
  line 1003 leaves a file on the device whose bytes are never counted.
- TransferSpec.CopyFolder: the model has no path for a throw while listing the staged folder,
  reading a file's length or asking whether a device folder exists, so `TransferProofs.Placed`
  (every uploaded file counted) holds on every run of the model but not on such a run of the
  source.
- TransferSpec.BookPhases: sizing the staged tree never fails in the model.
- TransferEngine.Device.CreateDirectory: the device's `CreateDirectory` is modelled as adding
  only the folder it is given.
- TransferEngine.Device.UploadFile: the device keeps a log of (folder, name, length) entries.
  The device path it is called with is `TransferSpec.DevicePath` of the entry, and
  `TransferProofs.DevicePathOfUpload` describes it.
