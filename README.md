# fdup duplicate-finding engine, modelled in Dafny

fdup is a command-line tool that finds duplicate files. It walks a directory
(optionally breadth-first through all subdirectories) and hashes every
visible file with SHA-256. The files are grouped by the hexadecimal rendering
of their digest. This project models the engine in `src/main.rs` and proves
what it does:

- `walk_directory` lists one directory. It drops hidden entries, appends
  subdirectories to the back of a work queue, and appends every other entry's
  path to the list kept for its fingerprint.
- `check_duplicates` walks the root once. If that walk succeeded and
  `recurse` is set, it drains the queue front to back, reporting failing
  directories as it goes.
- `get_file_hash` reads a file through a 4096-byte buffer into an
  incremental SHA-256 hasher, then renders the digest with `{:x}` per byte.
- The `FILE_ATTRIBUTE_HIDDEN` test decides which entries are hidden.
- The selection logic of `print_results` is modelled too.

The modules follow the program's structure:

| file | module | models |
|---|---|---|
| io.dfy | `Io` | the filesystem as a value: directory listings, metadata, and the results of successive `read` calls; each can fail |
| filter.dfy | `HiddenFilter` | the hidden-attribute test and the skip condition |
| hex.dfy | `Hex` | the `{:x}` rendering of a digest |
| hashing.dfy | `ContentHash` | the chunked read loop, with an `OpenFile` and an incremental `Sha256` as classes |
| index.dfy | `DuplicateIndex` | the `HashMap<String, Vec<PathBuf>>` and its `entry().or_insert().push` update |
| walker.dfy | `Walker` | `walk_directory` |
| orchestrator.dfy | `Orchestrator` | `check_duplicates` with its FIFO queue and its diagnostics |
| report.dfy | `Reporting` | what `print_results` counts, selects and reports |

Each imperative operation is a method proved equal to a specification
function:

- `WalkDirectory` is `Walk`;
- `GetFileHash` is `FileHash`;
- `CheckDuplicates` is `Run`, and its ghost trace is `Trace`;
- its drain loop `DrainQueue` is `Drain`, and the directories it walks are `Visits`.

The properties are proved as lemmas about those functions. The drain loop
is stated over what one walk of a directory does (enqueued subdirectories,
records, status), so its properties hold whatever the walker computes.

Behaviour of the code worth knowing, which the model keeps:

- **A failed hash aborts the whole directory.** A file whose open or read
  fails ends the walk of its directory with an error, because of the `?` at
  src/main.rs:114. Entries before it stay recorded or enqueued; entries after
  it are never visited. The run then goes on with the next queued directory.
  It is not the case that only that file is skipped.
- **A failed metadata query does not skip the entry.** An entry whose
  `metadata()` fails counts as not hidden, and `is_dir` is false for it. It
  is therefore hashed.
- **A failed root walk stops the run.** No queued subdirectory is walked,
  even with `recurse` and even when the root walk had already enqueued some
  before failing.
- **Subdirectories are enqueued even without `recurse`.** The queue is then
  simply never drained.
- **The rendering is not injective.** Each byte is rendered without zero
  padding, so a 32-byte digest gives 32 to 64 characters, and two different
  digests can give the same fingerprint. The model keeps that rendering.

## Model

| member | source | states |
|---|---|---|
| `Io.IsDir` | src/main.rs:111 | the `is_dir` answer: true only for a path whose metadata reads and says directory, false when the metadata query fails |
| `Io.ItemPaths` | src/main.rs:99-102 | the paths of the entries `read_dir` yields, in iteration order, without the items `flatten` drops |
| `Io.ListedOnce` | src/main.rs:99-102 | what `read_dir` guarantees of a directory tree: each entry is its parent joined with a name, so no path is listed by two directories or twice by one, and the root of the walk by none |
| `HiddenFilter.HasHiddenAttribute` | src/main.rs:106 | the attribute word masked with `FILE_ATTRIBUTE_HIDDEN` is nonzero |
| `HiddenFilter.Skipped` | src/main.rs:105-109 | the `continue`: the metadata reads, the hidden bit is set and `include-hidden` is absent |
| `HiddenFilter.HiddenIsBitOne` | src/main.rs:106 | masking with `FILE_ATTRIBUTE_HIDDEN` (0x2) is nonzero exactly when bit 1 of the attribute word is set |
| `HiddenFilter.IncludeHiddenKeepsAll` | src/main.rs:105-109 | with `include-hidden` no entry is skipped |
| `Hex.DigitValue` | src/main.rs:135 | decoding a lowercase hex digit is the two-sided inverse of producing one |
| `Hex.ByteHex` | src/main.rs:135 | `{:x}` of a byte is one digit below 16 and two otherwise, all lowercase hex, with no leading zero unless the byte is 0 |
| `Hex.ByteHexRoundTrip` | src/main.rs:135 | parsing the rendering of a byte gives back the byte |
| `Hex.HexDigest` | src/main.rs:135 | the fingerprint consists only of lowercase hex digits |
| `Hex.HexDigestAppend` | src/main.rs:135 | rendering a concatenation is concatenating the renderings (the pieces are joined with no separator) |
| `Hex.HexDigestLength` | src/main.rs:135 | a digest of n bytes gives a fingerprint of n to 2n characters, and exactly 2n iff every byte is at least 16 |
| `Hex.Sha256FingerprintLength` | src/main.rs:135 | a 32-byte digest gives a fingerprint of 32 to 64 characters |
| `Hex.HexDigestCollision` | src/main.rs:135 | `[0x1, 0x23]` and `[0x12, 0x3]` both render as "123" |
| `Hex.DigestsCanShareFingerprint` | src/main.rs:135 | two different 32-byte digests exist with the same fingerprint |
| `ContentHash.Stream` | src/main.rs:128-134 | the bytes a sequence of reads yields up to the first read returning 0, or the error of the first failing read |
| `ContentHash.ReadCount` | src/main.rs:129 | the number one `read` returns: the length of the next chunk capped at the buffer's length, 0 at end of file |
| `ContentHash.AfterRead` | src/main.rs:129 | what one successful `read` leaves pending: the unread tail of the chunk, then the later reads |
| `ContentHash.ReadPreservesStream` | src/main.rs:129 | a successful read divides what remains into the bytes returned and an unchanged remainder, which is strictly smaller; a read that returns 0 ends the stream; a read returns at most the buffer's length |
| `ContentHash.PartialRead` | src/main.rs:129 | a read that takes only part of the next chunk yields that part followed by the stream of the rest of the chunk and later reads, and what remains is smaller |
| `ContentHash.StreamStopsAtEndOfFile` | src/main.rs:130-132 | nothing after the first read that returns 0 bytes affects the bytes hashed |
| `ContentHash.StreamIgnoresChunking` | src/main.rs:128-133 | splitting the bytes of one read over two reads does not change the bytes hashed |
| `ContentHash.StreamFailsIff` | src/main.rs:129 | reading fails exactly when some read fails before any read returned 0 bytes, and the error is then a read failure |
| `ContentHash.FileHash` | src/main.rs:124-136 | `get_file_hash` as a function: an open failure, a read failure, or the hex rendering of SHA-256 of the stream |
| `ContentHash.SameBytesSameFingerprint` | src/main.rs:124-136 | two files whose reads yield the same bytes get the same successful fingerprint |
| `ContentHash.Sha256.constructor` | src/main.rs:127 | a new hasher has been fed nothing |
| `ContentHash.Sha256.Update` | src/main.rs:133 | the hasher has been fed the old bytes followed by the chunk |
| `ContentHash.Sha256.Finalize` | src/main.rs:135 | the digest is SHA-256 of everything fed |
| `ContentHash.OpenFile.constructor` | src/main.rs:126 | a freshly opened file has every read still ahead |
| `ContentHash.OpenFile.Read` | src/main.rs:129 | a read either fails and changes nothing, returns 0 at end of file, or copies up to the buffer's length of the next bytes into the buffer, leaving the rest pending |
| `ContentHash.GetFileHash` | src/main.rs:124-136 | the result is `FileHash`: an open failure, a read failure, or the hex rendering of SHA-256 of all the bytes read; every chunk fed is non-empty and at most 4096 bytes, and on success the chunks together are exactly the file's bytes |
| `DuplicateIndex.Insert` | src/main.rs:115-116 | recording adds the key if absent, appends the path at the end of that key's list keeping the old list as a prefix, and changes no other key |
| `DuplicateIndex.InsertKeepsShape` | src/main.rs:115-116 | one recording keeps every old list as a prefix and creates no empty list |
| `DuplicateIndex.GrowsTransitive` | src/main.rs:115-116 | lists that only grow at the end over two stretches only grow at the end over both |
| `DuplicateIndex.InsertAll` | src/main.rs:101-118 | the index after recording a sequence of files, one `entry().or_insert().push` after another |
| `DuplicateIndex.ListForInsert` | src/main.rs:115-116 | after one recording the list of every key is its old list, followed by the path exactly when the key matches |
| `DuplicateIndex.InsertAllKeys` | src/main.rs:115-116 | after a series of recordings the keys are the old keys plus the new fingerprints |
| `DuplicateIndex.InsertAllLists` | src/main.rs:115-116 | after a series of recordings every key's list is its old list followed by the new paths with that fingerprint, in recording order |
| `DuplicateIndex.InsertAllKeepsShape` | src/main.rs:115-116 | recordings never produce an empty list, and every old list stays a prefix of the new one |
| `DuplicateIndex.PathsForNonEmpty` | src/main.rs:115-116 | a fingerprint that occurs among the recordings has at least one path |
| `DuplicateIndex.PathsOf` | src/main.rs:115-116 | the paths of a sequence of recorded files, in recording order |
| `DuplicateIndex.InsertAllAppend` | src/main.rs:115-116 | recording in two rounds is recording the concatenation |
| `DuplicateIndex.PathsForWithin` | src/main.rs:115-116 | the paths recorded under one fingerprint are among all the recorded paths |
| `DuplicateIndex.PathsForOnce` | src/main.rs:115-116 | when no path is recorded twice, the paths under one fingerprint have no repeats and share none with another fingerprint's |
| `DuplicateIndex.IndexPathsOnce` | src/main.rs:115-116 | recording files with pairwise different paths from the empty index puts every path in exactly one list, once |
| `DuplicateIndex.TotalAt` | src/main.rs:115-116 | the number of paths kept can be split at any key |
| `DuplicateIndex.InsertTotal` | src/main.rs:115-116 | one recording adds exactly one path to the total |
| `DuplicateIndex.InsertAllTotal` | src/main.rs:115-116 | a series of recordings adds exactly one path per recorded file |
| `Walker.WalkItems` | src/main.rs:101-118 | over the rest of a listing the queue only grows at its end, every list only grows at its end, and no list becomes empty |
| `Walker.WalkDirectory` | src/main.rs:93-121 | the status, queue and index returned are those of `Walk` on the directory |
| `Walker.HashFails` | src/main.rs:105-114 | the entry that makes the `?` at :114 return: a visible non-directory whose hash fails |
| `Walker.FirstFailure` | src/main.rs:114 | the position found is within the listing, and when inside it, the item there is a visible file whose hash fails |
| `Walker.FirstFailureIsFirst` | src/main.rs:114 | no item before that position fails |
| `Walker.DirsAndFilesApart` | src/main.rs:111-116 | every enqueued path is a visible directory; every recorded path is a visible non-directory recorded under its own fingerprint, so a directory is never hashed |
| `Walker.VisibleDirs` | src/main.rs:105-112 | the entries pushed onto the queue: visible directories, in listing order |
| `Walker.FileRecords` | src/main.rs:105-116 | the entries recorded in the index: visible non-directories whose hash succeeds, each with its fingerprint, in listing order |
| `Walker.SelectionsWithin` | src/main.rs:101-116 | the enqueued subdirectories and recorded files are entries of the listing; without repeated entries neither repeats, and no recorded file is a directory |
| `Walker.WalkItemsStep` | src/main.rs:101-118 | one non-failing item adds its directory to the queue or its file to the index |
| `Walker.SplitFirst` | src/main.rs:101 | enqueued directories and recorded files are collected in listing order |
| `Walker.FirstFailureCons` | src/main.rs:101-118 | past a first entry that does not fail, the entries processed are that entry followed by those processed from the rest |
| `Walker.WalkItemsQueue` | src/main.rs:111-112 | the queue left is the old queue followed by the visible subdirectories before the first failing file, in listing order |
| `Walker.WalkItemsIndex` | src/main.rs:114-116 | the index left is the old index with the visible files before the first failing file recorded, in listing order |
| `Walker.WalkItemsStatus` | src/main.rs:114 | the walk returns the error of the first failing file, or success when none fails |
| `Walker.Walk` | src/main.rs:93-121 | `walk_directory` as a function: a failing `read_dir` changes nothing, otherwise the listing loop from the given queue and index |
| `Walker.Pushed` | src/main.rs:101-118 | what one `walk_directory` call appends to the queue: the visible subdirectories before the first failing file |
| `Walker.Recorded` | src/main.rs:101-118 | what one `walk_directory` call records: the visible files before the first failing file |
| `Walker.Status` | src/main.rs:99-120 | what one `walk_directory` call returns: the `read_dir` error, the first failing file's error, or success |
| `Walker.VisitOf` | src/main.rs:93-121 | one `walk_directory` call summarised as its status, its enqueued subdirectories and its recorded files |
| `Walker.Seen` | src/main.rs:111-116 | every path one walk enqueues or records |
| `Walker.SeenInListing` | src/main.rs:99-116 | everything a walk enqueues or records is an entry of that directory's listing, and with no repeated entry nothing is enqueued or recorded twice |
| `Walker.WalkExplicit` | src/main.rs:93-121 | a walk only appends to the queue and the index, and what it appends and returns depends on the directory alone |
| `Walker.SkippedIff` | src/main.rs:105-109 | a single entry leaves queue and index untouched with success exactly when its metadata reads, its hidden bit is set and `include-hidden` is absent |
| `Walker.ReadDirFailureChangesNothing` | src/main.rs:99 | when `read_dir` fails the walk returns that error with queue and index unchanged |
| `Walker.WalkFailsAtFirstFailedHash` | src/main.rs:114 | a listed directory's walk fails exactly at its first visible file whose hash fails; everything before it is enqueued or recorded, nothing after it |
| `Orchestrator.LoadAppend` | src/main.rs:34-46 | the weight of a queue adds up over concatenation |
| `Orchestrator.WeightBelowIsLoad` | src/main.rs:34-46 | the weight of a directory's subdirectories is their weight as a queue |
| `Orchestrator.VisibleDirsAppend` | src/main.rs:111-112 | the subdirectories of a split listing are those of its two parts |
| `Orchestrator.VisibleDirsLighter` | src/main.rs:105-112 | the visible subdirectories weigh no more than all subdirectories |
| `Orchestrator.PushedLighter` | src/main.rs:34-46 | what one walk enqueues weighs less than the directory walked |
| `Orchestrator.WalkShrinks` | src/main.rs:34-46 | on an acyclic filesystem every walk enqueues less weight than the directory it walks |
| `Orchestrator.Shrinking` | src/main.rs:35-38 | popping the front directory and appending what its walk enqueues leaves a lighter queue, so the drain loop terminates |
| `Orchestrator.ConsAll` | src/main.rs:35-44 | the walks of a directory followed by others enqueue, record and report the first's effects before the rest |
| `Orchestrator.Report` | src/main.rs:37-44 | the `eprintln!` of a failing walk: the diagnostic for that directory and error, appended to the log; nothing for a successful walk |
| `Orchestrator.ReportAppends` | src/main.rs:37-44 | a failing walk appends its diagnostic to the log; a successful one leaves it |
| `Orchestrator.Drain` | src/main.rs:34-46 | the drain loop as a function: pop, walk onto the rest of the queue and the index, report a failure, until the queue is empty |
| `Orchestrator.Visits` | src/main.rs:34-46 | the directories the drain loop pops, in the order it pops them |
| `Orchestrator.DrainCons` | src/main.rs:35-44 | one round of the drain loop pops the front, records its files, logs its error if it has one, and continues from a lighter queue |
| `Orchestrator.ConsOutcome` | src/main.rs:35-44 | the records and diagnostics of one walk come before those of the walks after it |
| `Orchestrator.ConsIndex` | src/main.rs:35-44 | the files one walk records come before those of the walks after it |
| `Orchestrator.ConsLog` | src/main.rs:37-44 | the diagnostic of one walk comes before those of the walks after it |
| `Orchestrator.ConsQueue` | src/main.rs:35-38 | the front directory, then the rest of the queue with its enqueued subdirectories, then later enqueues, is the queue followed by all enqueues |
| `Orchestrator.VisitsAreFifo` | src/main.rs:34-46 | the directories drained are the initial queue followed by everything the walks enqueue, in enqueue order (first in, first out) |
| `Orchestrator.DrainExplicit` | src/main.rs:34-46 | the drain loop records the files of every directory it walks and logs one diagnostic per failing walk, in walk order; an error does not stop the rest |
| `Orchestrator.DrainRound` | src/main.rs:35-44 | one round performed by `walk_directory` on the rest of the queue lowers the queue's weight and leaves the drain's outcome and walk order unchanged |
| `Orchestrator.DrainQueue` | src/main.rs:34-46 | the loop returns the index and diagnostics of `Drain`, and the directories it walks are `Visits` |
| `Orchestrator.Run` | src/main.rs:23-50 | `check_duplicates` as a function: the root walk, then the error diagnostic, nothing more without `recurse`, or the drain loop |
| `Orchestrator.Trace` | src/main.rs:23-50 | the directories `check_duplicates` walks: the root, then the drain loop's walks when the root walk succeeded and `recurse` is set |
| `Orchestrator.CheckDuplicates` | src/main.rs:23-50 | the index and diagnostics returned are those of `Run`, and the directories walked are `Trace` |
| `Orchestrator.RunExplicit` | src/main.rs:23-50 | the final index holds the records of every walked directory and the log one diagnostic per failing walk, in walk order; no list is empty and there is exactly one path per recorded file |
| `Orchestrator.RootOnlyRun` | src/main.rs:29-33 | without the drain loop the index and log are those of the root walk alone |
| `Orchestrator.RecursiveRun` | src/main.rs:29-46 | with the drain loop the index and log are the root walk's followed by those of every drained walk, in walk order |
| `Orchestrator.RootOnly` | src/main.rs:29-33 | without `recurse`, or when the root walk fails, only the root is walked and the index holds only files from its own listing |
| `Orchestrator.RecursiveOrder` | src/main.rs:33-46 | with `recurse` and a successful root walk, the root comes first, then the root's subdirectories, then everything enqueued later, first in first out |
| `Orchestrator.VisibleDirsAmongAll` | src/main.rs:105-112 | the visible subdirectories of a listing are among all its subdirectories |
| `Orchestrator.WalkLowers` | src/main.rs:111-112 | on an acyclic filesystem every walk enqueues only directories of lower rank than the one walked |
| `Orchestrator.VisitsCons` | src/main.rs:35-38 | the drain loop walks the front directory, then continues from a lighter queue |
| `Orchestrator.NextBelow` | src/main.rs:35-38 | popping the front and enqueueing its subdirectories keeps every queued directory below a rank bound |
| `Orchestrator.VisitsBelow` | src/main.rs:34-46 | when every queued directory is below a rank bound, every directory the drain loop walks is too |
| `Orchestrator.RootWalkedOnce` | src/main.rs:29-46 | the root is walked first and never again, recursion or not |
| `Orchestrator.Separate` | src/main.rs:34-46 | no path is enqueued or recorded by two walks, or twice by one, and the root by none |
| `Orchestrator.WalkSeparate` | src/main.rs:99-116 | on a filesystem that lists every path once, the walks of one run keep their paths apart |
| `Orchestrator.PushedAllAppend` | src/main.rs:34-46 | what a series of walks enqueues adds up over concatenation |
| `Orchestrator.PushedFrom` | src/main.rs:34-46 | a path that one walk sees is enqueued by a series of walks only if that walk is in the series |
| `Orchestrator.RecordedFrom` | src/main.rs:34-46 | a path that one walk sees is recorded by a series of walks only if that walk is in the series |
| `Orchestrator.VisitsFront` | src/main.rs:35-38 | the drain loop walks the front directory, then drains the lighter queue one round leaves |
| `Orchestrator.VisitsDistinct` | src/main.rs:34-46 | from walked directories and a queue with no repeats, where every directory but the root was enqueued by a walked one, the drain loop never walks a directory twice |
| `Orchestrator.RoundKeepsApart` | src/main.rs:35-38 | one round of the drain loop keeps the walked directories and the queue free of repeats, and every one of them but the root enqueued by a walked directory |
| `Orchestrator.RecordedDistinct` | src/main.rs:35-44 | walks of pairwise different directories record pairwise different paths |
| `Orchestrator.RootStart` | src/main.rs:29-46 | draining what the root's walk enqueues walks no directory twice and never the root again |
| `Orchestrator.TraceDistinct` | src/main.rs:23-50 | on a filesystem that lists every path once, `check_duplicates` walks no directory twice |
| `Orchestrator.PathsRecordedOnce` | src/main.rs:23-50 | on a filesystem that lists every path once, every recorded path is in exactly one list of the final index, and only once in it |
| `Reporting.Selected` | src/main.rs:57-65 | the lists printed as groups when the keys come in a given order: those with more than one path, in that order |
| `Reporting.SelectedSnoc` | src/main.rs:57-65 | visiting one more key prints its list after the earlier groups exactly when it has more than one path |
| `Reporting.SelectedAreGroups` | src/main.rs:57-65 | every printed group is the list of a visited fingerprint and has at least two paths |
| `Reporting.SelectedEmptyIff` | src/main.rs:58-69 | no group is printed exactly when no visited fingerprint has more than one path |
| `Reporting.SelectedCount` | src/main.rs:57-65 | the number of printed groups is the number of distinct visited fingerprints with more than one path |
| `Reporting.SelectedCountsDuplicates` | src/main.rs:57-70 | over the whole map one group is printed per shared fingerprint, and none exactly when no fingerprint is shared |
| `Reporting.PrintResults` | src/main.rs:53-71 | the count printed is the number of fingerprints; the keys are visited once each, in some order; the printed groups are the lists longer than one in that order; "no duplicates" is printed exactly when no list is longer than one |
| `Reporting.UniqueCountAtMostFiles` | src/main.rs:55 | the "unique files" count is the number of fingerprints: at most the number of files recorded, and equal to it exactly when no fingerprint is shared |

## Left out

- Real filesystem I/O (`read_dir`, `metadata`, `is_dir`, `File::open`, `read`) is replaced by the `FileSystem` value. Each directory listing, metadata answer and read result is data, so every failure the code handles can be expressed.
- The SHA-256 algorithm of the `sha2` crate is a parameter `sha` mapping bytes to a 32-byte digest. Nothing else is assumed about it.
- Command-line parsing (`setup`, `get_raw`, `get::<bool>`, `has_arg`) is left out. `path`, `recurse` and `include-hidden` are plain inputs, and `recurse` stands for the outcome of `get::<bool>("recurse").is_ok()`. The `expect` on a missing `path` is left out with the parsing.
- The text `print_results` prints and the order in which a `HashMap` iterates are left out. The numbering and formatting of the lines are not modelled; the iteration order is any enumeration of the keys, returned as a ghost.
- The `eprintln!` diagnostics are an appended log of (path, error) pairs. Their wording is not modelled.
- The error kinds of `std::io::Error` are reduced to three cases: the directory cannot be listed, the file cannot be opened, a read fails.
- The Windows `file_attributes` query is reduced to a 32-bit attribute word per path, with no platform distinction.
- The metadata query and the `is_dir` query are one answer per path. A filesystem that changes between the two calls is not modelled.
- Symbolic-link cycles are left out. When `recurse` is set, `CheckDuplicates` requires a rank on paths that decreases from each directory to every subdirectory it lists (`Acyclic`). This is what makes the drain loop terminate. Without `recurse` nothing is demanded of the rank. The measure is the total tree weight of the queue, not the count of unwalked directories.
- `FileSystem` also admits listings that repeat a path, which `read_dir` never produces. `PathsRecordedOnce` states the once-per-path property of the index under `ListedOnce`. Every other result holds for any listing.
- The `None` branch of `pop_front` on a non-empty queue cannot happen and is not modelled.
- The closing of the file handle when `get_file_hash` returns is not modelled.
