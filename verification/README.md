# A verified model of spa-server's versioned store

spa-server keeps, for every domain, numbered versions of a static site in `<prefix>/<domain>/<version>`.
Clients upload a version file by file, an administrator puts a version online, old versions are deleted, and
visitors are answered from an in-memory snapshot of the version online. This project models that store and the
protocols around it, and proves what they guarantee.

| file | what it models |
|---|---|
| `Prelude.dfy` | bytes, machine integers, directory listings in arbitrary order |
| `Paths.dfy` | relative paths, percent-coded names, the path rules of both ends |
| `Keys.dfy` | how files get their keys by removing the walked directory with `str::replace` |
| `Disk.dfy` | version directories, the marker file, one file write, whole or torn |
| `FileCache.dfy` | cached items, snapshots of a directory, the published map |
| `Storage.dfy` | `DomainStorage`: start, session, save, release, position, metadata, removal |
| `Retention.dfy` | the nested loops that delete old versions |
| `System.dfy` | the store as a transition system with slow releases, I/O errors and crashes |
| `Recovery.dfy` | unfinished uploads, sessions across crashes, write-once files |
| `Races.dfy` | two races outside that system: late saves and overlapping releases, and when they do harm |
| `AcceptEncoding.dfy` | the test for gzip in the Accept-Encoding header, and what the header means |
| `Serving.dfy` | range arithmetic, replies from memory and from disk |
| `Lifecycle.dfy` | upload positions, restarts, one session from upload to request |
| `UploadFiles.dfy` | the uploading client: retries, bounded pool, conditional Finish |
| `UploadExactly.dfy` | uploading into an empty version |
| `Completion.dfy` | exactly when an upload can succeed, from its start or half-way |
| `LocalFiles.dfy` | from the local directory to the jobs: comparison with the server's listing |
| `EndToEnd.dfy` | client upload, release and request put together |
| `HotReload.dfy` | who owns the stop signals of the public listeners |

How the pieces fit. Each method of a class is proved against a specification function on an immutable state
(`StatusStep`, `SaveStep`, `Released`, `DeleteStep`, `IsBoot`, `StopStep`, ...). The transition system in `System.dfy` is
built from those same functions, so a completed method call is a step of it (a release, which walks a whole
directory, is a chain of steps: `Recovery.ReleaseIsAChain`). Theorems about runs quantify over every sequence of steps:
completed operations, releases that walk file by file while other things happen, operations that break off with an
I/O error, and crashes in the middle of any operation followed by a start. The client is a second transition
system, interleaved with that one step by step.

Reading notes.

- A domain is a *host* if its name matches `URI_REGEX` (unanchored, so any name with a dot between letters or digits).
  A start only looks at host directories, so what depends on a start is stated for hosts.
- Snapshots are a relation, not a function: when keys collide, the entry belongs to whichever file was walked last,
  and the order is the operating system's. Where no relative path contains the version path (`CleanNames`) the
  snapshot is unique.
- A delete *fits* if no targeted domain serves a version below its reserve; it *spares sessions* if it removes no version
  of a host that is being uploaded. A delete that the process dies in need not fit.
- What is proved of files left out of an upload takes length and digest as the client does: it assumes, of the files in
  the version when the listing was made and no others, that those two tell them from the local file (`Identifies`).
- `dirty` in the system state is history only: the versions written to since their marker was last removed.

Where the code departs from what its documentation says, the model follows the code.

- The guide says the client compares metadata and sends only what is missing. But a client key normally starts with "/"
  and a server key never does, so what is there already is sent again; a file can only be left out when the path of the
  local directory, repeated at the front of "/" and the relative path, takes that "/" away: /d holding d2/x
  has the key "2/x" (`Keys.ListableExactlyWhen`, `Keys.ClientKeyMangled`, `LocalFiles.SkippedExactlyWhen`).
- The guide wants retries, and uploads that go on where a network error stopped them. Files are created once, so a save
  that was stored while its reply was lost fails on every retry, and a client that is run again can succeed if and only
  if each of its files can still be created, or is empty and there already (`UploadFiles.LostReplyFails`,
  `Completion.LostReplyRun`, `Completion.CanSucceedExactlyWhen`, `LocalFiles.RunSucceedsExactlyWhen`).
- The client sends keys as they are and the server percent-decodes them: a local file "a%41" is stored as "aA". A file is
  stored under its own path if and only if its name survives both (`LocalFiles.KeyNamesThePathExactlyWhen`,
  `LocalFiles.EncodedNameMoves`).
- The guide says a version with a marker is never online. That holds on every run for hosts; for other names a start
  ignores the marker, and the version can be released (`Lifecycle.MarkedGoesOnlineExactlyWhen`).
- The guide says a start serves the biggest version. It serves the biggest unmarked one above 0
  (`System.StartServesExactly`).
- Keeping `max_reserve` versions fails when the reserve exceeds the base: the subtraction wraps in a build without
  overflow checks (and panics with them), and the served version is deleted, or the greatest one of a domain that serves
  nothing. What is served and published stays coherent if and only if no targeted domain serves a version below the
  reserve (`Retention.RetentionIsExact`, `Retention.BaseSurvives`, `System.DeleteKeepsCoherentExactlyWhen`).
- Unfinished versions are kept offline by their marker. Deleting a version in session removes the marker and leaves the
  session, and the version can come back without one (`Recovery.DeletedSessionGoesOnline`). And an opening that is
  cut off before the marker leaves an empty version that a restart serves (`Lifecycle.CutOpeningGoesOnline`).
- Whether a client accepts gzip is decided by looking for "gzip" anywhere in the header, so "gzip;q=0" gets gzip and "*"
  does not (`AcceptEncoding.GzipTestExactlyWhen`).
- Suffix ranges (`bytes=-n`) are read as prefixes, and a last position beyond the length is refused instead of
  clamped, against section 2.1 of RFC 7233 (`Serving.SuffixExactlyWhen`, `Serving.FirstLastExactlyWhen`).

## Model

| member | source | states |
|---|---|---|
| Paths.SanitizePath | server/src/static_file_filter.rs:21-34 | the early-returning loop refuses exactly the undecodable paths and those with a piece that starts with ".." or holds a backslash |
| Paths.RefusedExactlyWhen | server/src/static_file_filter.rs:21-34 | character by character: refused is what holds a backslash, starts with ".." or holds "/.." |
| Paths.SaveTargetExactlyWhen | server/src/domain_storage.rs:296-297 | a save refuses exactly those names and undecodable ones; what it is aimed at has no segment that is ".", starts with ".." or holds a backslash, and is a directory exactly for names that end in "/" or in a piece "." |
| Paths.SaveTargetOfPlain | server/src/domain_storage.rs:296-297 | saving under the percent-encoded absolute name of a plain path is aimed at exactly that path |
| Keys.ServerKeyIsRelativePath | server/src/file_cache.rs:97-118 | a cache key is the relative path if and only if that path does not contain the version path again |
| Keys.ServerKeysInjective | server/src/file_cache.rs:117-118 | under that condition different files have different keys |
| Keys.ServerKeyCollision | server/src/file_cache.rs:117-118 | without it two concrete files share one key |
| Keys.ClientKeyIsAbsolutePath | client/src/upload_files.rs:34-61 | a client key is "/" plus the relative path if and only if that does not contain the uploaded directory again |
| Keys.ClientKeyMangled | client/src/upload_files.rs:61-61 | otherwise a file can be uploaded under a part of its name, which is also the server's key of another file |
| Keys.ListableExactlyWhen | client/src/upload_files.rs:61-68 | some server listing can hold a client key if and only if what is left of "/" and the relative path, after its leading repetitions of the directory, is not empty and does not start with "/" |
| Caching.FileCache.CacheDir | server/src/file_cache.rs:96-170 | the walk yields a snapshot with an entry for every file and no entry made from anything else, for any listing order |
| Disk.HostExactlyWhen | server/src/domain_storage.rs:18-19 | a host is a name in which a label (1 to 63 letters, digits or "-", the first no "-"), a dot and a letter or digit follow one another |
| Disk.HostExamples | server/src/domain_storage.rs:18-19 | "example.com" is one, a name without a dot is not |
| Disk.MarkedExactlyWhen | server/src/domain_storage.rs:25-60 | a version is marked by an entry ".SPA-Processing" at its top, file or directory |
| Disk.VersionPathInjective | server/src/domain_storage.rs:152-157 | different versions have different directories |
| Disk.DecimalReadsBack | server/src/domain_storage.rs:152-157 | named by their number in decimal, without leading zeros |
| Caching.ItemOfFile | server/src/file_cache.rs:117-162 | length, mime type, block (on disk, held, held compressed) and expiry of an item, from size, extension and configuration |
| Caching.ExtensionAfterLastDot | server/src/file_cache.rs:119-122 | the extension that decides compression and expiry is what follows the last dot, or the whole name without one |
| Caching.LastWalkedWins | server/src/file_cache.rs:104-167 | where keys collide, the file walked last has the entry |
| Caching.SnapshotIsExact | server/src/file_cache.rs:104-167 | with clean names each file's own item stands under its relative path |
| Caching.SnapshotsAgree | server/src/file_cache.rs:104-167 | with clean names two walks of one directory in any orders yield equal maps |
| Storage.DomainStorage.Init | server/src/domain_storage.rs:36-94 | a start opens a session on a marked version of each host and serves the greatest unmarked version above 0 from a full snapshot of it, and fails exactly when the directory is missing |
| Storage.DomainStorage.ScanDomain | server/src/domain_storage.rs:51-69 | the version loop finds the greatest unmarked version and notes a marked one, leaving other domains alone |
| Storage.DomainStorage.UploadDomainWithVersion | server/src/domain_storage.rs:100-150 | resolves and guards the version, changes nothing on error, and on success serves and publishes exactly the walked directory |
| Storage.ReleaseSucceedsExactlyWhen | server/src/domain_storage.rs:124-149 | a given version can be released if and only if it exists and is not itself being uploaded, whatever else of the domain is |
| Storage.ReleaseOfLatestExactlyWhen | server/src/domain_storage.rs:105-149 | without a version the greatest is released, if it is not being uploaded; there is none to release exactly without versions |
| Storage.DomainStorage.SaveFile | server/src/domain_storage.rs:288-318 | whole new state and result of a save: only in session, only create, with the outcomes for directories, enclosing files and existing files |
| Storage.DomainStorage.UpdateUploadingStatus | server/src/domain_storage.rs:320-380 | whole new state and result of opening, re-opening and finishing a session, with every refusal |
| Storage.StatusRefusals | server/src/domain_storage.rs:326-378 | which change of status is refused, with which error, and that a refusal changes nothing |
| Storage.StatusEffects | server/src/domain_storage.rs:326-378 | what an accepted one does to session and marker; a marked version without a session can be finished |
| Storage.SaveRefusals | server/src/domain_storage.rs:295-316 | which save is refused before anything is written |
| Storage.ListedExactlyWhen | server/src/domain_storage.rs:272-277 | the metadata leaves out exactly the files named ".SPA-Processing", at any depth |
| Storage.DomainStorage.RemoveDomainVersion | server/src/domain_storage.rs:382-397 | removes exactly one version directory, or all of a domain, and leaves all maps, sessions included, as they were |
| Storage.DomainStorage.GetUploadPosition | server/src/domain_storage.rs:159-187 | the open session, or one past the greatest version with u32 wrap-around, or 1, and the directory of that version |
| Storage.DomainStorage.GetFilesMetadata | server/src/domain_storage.rs:242-286 | lists each file not named like the marker exactly once, under its key with its digest and length, and nothing else |
| Retention.RemoveDomainVersions | server/src/admin_server.rs:371-409 | the nested loops remove exactly the expired versions of the targeted domains |
| Retention.RemainsExactlyWhen | server/src/admin_server.rs:384-407 | of a targeted domain remains what is no older than the served version, or where none is served the greatest, minus the reserve (plus 2^32 where that is negative) |
| Retention.RetentionIsExact | server/src/admin_server.rs:384-407 | exactly the versions from base minus reserve on remain, if and only if the reserve does not exceed the base (or, where the base is not on disk, no version lies below the wrapped threshold) |
| Retention.RetentionBound | server/src/admin_server.rs:384-407 | with a reserve up to the base, at most reserve + 1 of the remaining versions are not newer than the base |
| Retention.BaseSurvives | server/src/admin_server.rs:384-396 | the served version, or the greatest where none is served, survives if and only if the reserve does not exceed it |
| Retention.WithoutReserve | server/src/admin_server.rs:397-403 | without a reserve exactly the served version remains, or version u32::MAX where none is served |
| Retention.ReserveTooLarge | server/src/admin_server.rs:389-389 | a concrete reserve of 2 behind version 1 deletes version 1, served or only the greatest |
| Retention.OthersUntouched | server/src/admin_server.rs:375-407 | versions of other domains and all maps in memory are untouched |
| Retention.DeleteIsIdempotent | server/src/admin_server.rs:375-407 | a second run deletes nothing, for every reserve |
| System.SaveStopsAnywhere | server/src/domain_storage.rs:301-310 | a save can break off or die with any of the directories made, or after any number of bytes |
| System.DeleteStopsAnywhere | server/src/domain_storage.rs:382-397 | a delete can with any part of a doomed version gone |
| System.OpeningStopsAnywhere | server/src/domain_storage.rs:358-360 | an opening can before its marker is there |
| System.BreaksOffOrDies | server/src/domain_storage.rs:36-94 | whatever an operation leaves when it stops, the process can live on with it or start again on it |
| System.SaveFrame | server/src/domain_storage.rs:288-318 | a save, complete or torn, changes only the version in session of its own domain, keeps every file there, and keeps the marker |
| System.ExclusionOnEveryRun | server/src/domain_storage.rs:50-82 | on every run, with any deletes and crashes: markers are sessions, a session is never the served version, no served version is marked, one marker per domain |
| System.CrashRecoversSessions | server/src/domain_storage.rs:50-66 | after a crash at any point of any operation the recovered sessions are exactly the markers on disk |
| System.ServedIsFrozen | server/src/domain_storage.rs:320-380 | short of a crash or a new release, no operation changes the directory a host serves, if deletes fit |
| System.CoherenceOnEveryRun | server/src/domain_storage.rs:141-145 | on every run whose deletes fit, the served version exists and (of hosts, outside a release) the published map is exactly its snapshot |
| System.DeleteKeepsCoherentExactlyWhen | server/src/admin_server.rs:384-407 | a delete leaves a coherent store coherent if and only if it fits |
| System.PublishedFilesExist | server/src/file_cache.rs:124-160 | the file behind every published item exists in the served version, under that key, with the recorded length |
| System.SlowReleaseIsolated | server/src/domain_storage.rs:141-145 | if deletes fit, during a file-by-file walk for a host, interleaved with anything else, the directory stays as it was at the beginning and readers see the old map |
| System.SlowReleasePublishesExactly | server/src/domain_storage.rs:141-145 | and what the walk publishes is the snapshot of the whole directory |
| Recovery.UnfinishedNeverServed | server/src/domain_storage.rs:62-67 | on every run whose deletes spare sessions, crashes anywhere: a version written to and not finished since is never served |
| Recovery.SessionsSurviveCrash | server/src/domain_storage.rs:58-66 | on every run whose deletes spare sessions, for hosts: a session exists after a crash exactly if it existed before, unless it was being opened or closed |
| Recovery.DeleteKeepsSealedExactlyWhen | server/src/domain_storage.rs:382-397 | a delete keeps every unfinished version marked if and only if it spares the versions of hosts in session, which are all the unfinished ones |
| Recovery.DeletedSessionGoesOnline | server/src/domain_storage.rs:382-397 | otherwise the session stays but cannot be finished, one more save brings the version back without a marker, and a restart serves it unfinished exactly if it is above 0 and no greater version is unmarked |
| Recovery.DeletedSessionRun | server/src/domain_storage.rs:51-82 | and there is such a run for every host and every version strictly between 0 and u32::MAX |
| Recovery.StatusFrame | server/src/domain_storage.rs:320-380 | a status change, complete or torn, alters at most the marker of its version |
| Recovery.FilesAreWrittenOnce | server/src/domain_storage.rs:304-309 | a file keeps its bytes on every run until its version is deleted |
| Recovery.SaveSucceedsExactly | server/src/domain_storage.rs:295-310 | a save succeeds if and only if it is in session, decodable, and creates a new file (with all its data) or writes nothing to something existing |
| Recovery.SaveLeaves | server/src/domain_storage.rs:295-312 | what is on disk after a save, successful or not: the directories around its target, and the file if it is new |
| Recovery.ReleaseIsAChain | server/src/domain_storage.rs:135-146 | the one-call release is a guard-and-serve step, a walk and a publication |
| Races.LateSaveBreaksExactlyWhen | server/src/domain_storage.rs:295-312 | a save that passed its session check too early leaves a domain coherent unless it creates a file in the served version |
| Races.LateSaveRun | server/src/domain_storage.rs:288-380 | and it can: check, Finish, release, write |
| Races.LateSaveInWalkExactlyWhen | server/src/domain_storage.rs:295-312 | during a release the late save breaks nothing by itself, but the walk has the snapshot of the version afterwards if and only if it has read every file and the save created none |
| Races.OverlapIsCoherentExactlyWhen | server/src/domain_storage.rs:135-146 | however releases of a domain overlap, and whatever happens to versions not served meanwhile: unless a directory is served again that changed since it was walked, the domain publishes what it serves if and only if the last to publish has the version of the last to enter (or nothing is published and nothing served) |
| Races.OneAtATimeIsCoherent | server/src/domain_storage.rs:135-146 | so it does whenever no two releases are under way at once |
| Races.OverlapRun | server/src/domain_storage.rs:135-146 | and two that overlap can break it |
| Serving.GetCacheFile | server/src/static_file_filter.rs:252-268 | a request path finds the item of its key, "/" and "" that of index.html, refused and unknown paths nothing |
| Serving.RequestKeyExactly | server/src/static_file_filter.rs:252-268 | character by character: which request paths are refused, which mean index.html, and the key of all others |
| Serving.LookupExactly | server/src/file_cache.rs:172-177 | a host is answered from what is published for it and from nothing else |
| Serving.FirstRangeCounts | server/src/static_file_filter.rs:46-77 | only the first of several ranges counts, none asks for everything |
| Serving.OtherBounds | server/src/static_file_filter.rs:49-66 | open and excluding bounds by including ones, over all u64 |
| Serving.RangeInBounds | server/src/static_file_filter.rs:39-78 | every accepted range lies inside the representation, an explicit one is not empty, over all u64 with wrapping addition |
| Serving.FirstLastExactlyWhen | server/src/static_file_filter.rs:55-74 | a first-last range equals the meaning in section 2.1 of RFC 7233 if and only if last does not exceed the length or the range is unsatisfiable |
| Serving.FromFirst | server/src/static_file_filter.rs:55-74 | an open-ended range always has the meaning of the RFC |
| Serving.SuffixExactlyWhen | server/src/static_file_filter.rs:49-66 | a suffix range has the meaning of the RFC if and only if it asks for exactly the whole length |
| Serving.BuildCacheReply | server/src/static_file_filter.rs:137-175 | the response built in place has the specified status, headers and body |
| Serving.BuildFileReply | server/src/static_file_filter.rs:81-135 | likewise for a reply streamed from the file, 404 when it cannot be opened |
| Serving.HeadersOfItem | server/src/static_file_filter.rs:227-250 | each header an item sets, with its value, and none besides |
| Serving.StreamExactly | server/src/static_file_filter.rs:90-107 | a stream yields the bytes asked for, as far as the file still has them |
| Serving.ErrorReplies | server/src/static_file_filter.rs:81-225 | 416 exactly for a range that is not accepted, 404 exactly where a file to be sent is gone, with their headers |
| Serving.NoHeaderNoGzip | server/src/static_file_filter.rs:196-205 | without Accept-Encoding no reply is coded, and a whole one is the file as it is |
| Serving.CacheItemToResponseHeader | server/src/static_file_filter.rs:227-250 | puts exactly the headers of an item over those already there |
| AcceptEncoding.GzipTestExactlyWhen | server/src/static_file_filter.rs:196-199 | for every header, when the substring test departs from section 5.3.4 of RFC 7231: gzip sent to a client that rules it out, gzip withheld from one that accepts it |
| AcceptEncoding.PlainHeaderExactlyWhen | server/src/static_file_filter.rs:196-199 | for ordinary headers: sent unwanted exactly if gzip is listed with weight 0 only, withheld exactly if "*" alone stands for it |
| AcceptEncoding.RefusalGetsGzip | server/src/static_file_filter.rs:196-199 | "gzip;q=0" gets gzip |
| AcceptEncoding.WildcardGetsNoGzip | server/src/static_file_filter.rs:196-199 | "*" does not |
| Serving.CacheOrFileReply | server/src/static_file_filter.rs:177-225 | passes on an answer without a body, and otherwise chooses memory or file by Accept-Encoding and compression and declares gzip exactly for compressed bytes |
| Serving.MemoryEqualsDisk | server/src/static_file_filter.rs:81-175 | for uncompressed bytes memory and file replies are equal in status, headers and body, for every range |
| Serving.WholeReplyIsContent | server/src/static_file_filter.rs:189-223 | a full reply decoded by its Content-Encoding is the file's content, and that is gzip exactly for compressed items and an Accept-Encoding header that contains "gzip" |
| Serving.SliceReply | server/src/static_file_filter.rs:90-107 | a slice reply has the slice's bytes and length, and is 206 with the matching Content-Range exactly when shorter than the whole |
| Serving.RangesReassemble | server/src/static_file_filter.rs:145-167 | the replies to any cut into adjacent ranges concatenate to the full reply |
| Lifecycle.PositionIsFresh | server/src/domain_storage.rs:167-176 | the position for a new version exceeds every version on disk if and only if the greatest is below u32::MAX |
| Lifecycle.PositionExactly | server/src/domain_storage.rs:159-187 | the open session, 1 for a new domain, else one past the greatest, which wraps to 0 |
| Lifecycle.PositionIsAccepted | server/src/domain_storage.rs:159-187 | on every run whose deletes fit, with the greatest version below u32::MAX, the offered position can be opened, and a new one then holds nothing but its marker |
| System.StartServesExactly | server/src/domain_storage.rs:51-82 | a start serves a version if and only if it is above 0, unmarked and no greater one is unmarked |
| Lifecycle.ReleasedLatestSurvivesRestart | server/src/domain_storage.rs:105-147 | a release of the latest version is served again from a full snapshot after a restart, and with clean names it is the same snapshot |
| Lifecycle.RestartKeepsServedExactlyWhen | server/src/domain_storage.rs:51-82 | on every run whose deletes fit, for hosts: after a crash at any point of any operation the version online before is served again if and only if it is above 0 and no greater version lacks a marker |
| Lifecycle.RestartServesOnly | server/src/domain_storage.rs:51-82 | on every run whose deletes spare sessions, for hosts: what a restart serves was on disk without a marker before, unless the crash hit its own Finish, its own opening (then it is empty) or its own deletion (then part of it may be gone) |
| Lifecycle.CutOpeningGoesOnline | server/src/domain_storage.rs:358-360 | an opening cut off before the marker leaves an empty version, which a restart serves exactly if it is above 0 and no greater version is unmarked |
| Lifecycle.MarkedGoesOnlineExactlyWhen | server/src/domain_storage.rs:50-66 | after a start, the only marked version of a domain can be released if and only if the domain is not a host |
| Lifecycle.SessionStores | server/src/domain_storage.rs:288-380 | opening a missing version, saving any list of separate plain paths and finishing leaves exactly that list |
| Lifecycle.UploadedIsFound | server/src/domain_storage.rs:288-380 | and after a release a GET of each path finds an item made from the saved bytes, "/" finds index.html |
| Lifecycle.DownloadIsUpload | server/src/static_file_filter.rs:177-225 | whose full reply decodes to the saved bytes |
| Lifecycle.EveryReplyIsOnDisk | server/src/static_file_filter.rs:177-225 | on every run whose deletes fit, for hosts outside a release, every full reply decodes to what the served version's file of that key holds |
| Lifecycle.MetadataKeysAreCacheKeys | server/src/domain_storage.rs:249-281 | without files named like the marker the metadata keys are the cache keys |
| UploadFiles.RetryUpload | client/src/upload_files.rs:161-180 | succeeds exactly if one of three attempts does, stops at the first success, and takes one number from the counter |
| UploadFiles.NothingToUpload | client/src/upload_files.rs:76-78 | a client with no file to send fails at once and asks the server for nothing |
| UploadFiles.PoolAccounting | client/src/upload_files.rs:116-158 | for every schedule: at most `parallel` in flight, reports numbered 1 to n without repetition, n to 3n requests, Finish asked exactly if nothing failed |
| UploadFiles.PoolGoesOn | client/src/upload_files.rs:119-131 | until all have reported there is a step the pool can take if and only if `parallel` is at least 1, and a job can be taken up whenever fewer are in flight |
| UploadFiles.AnyRequestMayFail | client/src/upload_files.rs:169-180 | whatever becomes of a request on the server, the client may hear of failure |
| UploadFiles.OthersMayAct | server/src/admin_server.rs:276-355 | and anybody may do anything in between |
| UploadFiles.SuccessMeansArrived | client/src/upload_files.rs:89-180 | commit safety: a successful client has every non-empty file on the server with exactly its bytes, for every schedule, network, crash and other client, if the version is not deleted |
| UploadFiles.SuccessCloses | client/src/upload_files.rs:152-156 | at success the session is closed and the marker gone |
| UploadFiles.HopelessNeverSucceeds | client/src/upload_files.rs:161-180 | once a non-empty file of the upload exists on the server, even in part, or its place is obstructed, without the client having heard of success, the client never succeeds, whatever happens |
| UploadFiles.LostReplyFails | client/src/upload_files.rs:169-180 | one lost reply to a save that succeeded makes the whole upload fail, whatever the retries do |
| UploadExactly.EverySuccessArrives | server/src/domain_storage.rs:304-310 | in a version that holds only this client's files a successful save has its file there, empty or not |
| UploadExactly.EmptyIsOurs | client/src/upload_files.rs:89-93 | a missing version, or one with nothing but a marker, is such a version |
| UploadExactly.SuccessMeansExactly | client/src/upload_files.rs:89-180 | in an initially empty version without other writers a successful client leaves exactly its files, empty ones included |
| Completion.CanSucceedExactlyWhen | client/src/upload_files.rs:89-180 | whatever the version holds, a client that may open it has a way to succeed, and one without anybody else's help, if and only if each file can be created there, or is empty and there already |
| Completion.PoolCanSucceedExactlyWhen | client/src/upload_files.rs:116-158 | and half-way, with no failure reported, if and only if that holds of each file not yet reported |
| Completion.ResumesExactlyWhen | client/src/upload_files.rs:89-180 | in a version with nothing but this client's files, if and only if none of those that are not empty is there |
| Completion.LostReplyRun | client/src/upload_files.rs:169-180 | from every start that can succeed, a first save whose reply is lost leads from a world that can succeed to one that cannot |
| Completion.OneFileCanSucceed | client/src/upload_files.rs:89-180 | and there is such a start |
| LocalFiles.SkippedExactlyWhen | client/src/upload_files.rs:61-72 | some server state makes the client leave a file out if and only if its key loses the leading "/" |
| LocalFiles.NeverSkipped | client/src/upload_files.rs:61-72 | whatever any server lists, all other files are sent |
| LocalFiles.SkippedIsListed | client/src/upload_files.rs:61-72 | a file left out is on the server under its key, with its length and digest |
| LocalFiles.KeyNamesThePath | client/src/upload_files.rs:59-66 | a local name untouched by key derivation and percent-decoding is stored under its relative path |
| LocalFiles.KeyNamesThePathExactlyWhen | client/src/upload_files.rs:59-66 | and only such a one, for every directory but the root of the file system |
| LocalFiles.EncodedNameMoves | server/src/domain_storage.rs:296-297 | a local file "a%41" is stored as "aA" |
| LocalFiles.UploadIsACopy | client/src/upload_files.rs:19-159 | so, compared with whatever listing, a successful upload into an empty version makes the finished version equal to the local directory |
| LocalFiles.EveryLocalFileIsHeld | client/src/upload_files.rs:19-180 | commit safety for the directory, whatever the version held before: at success the content of every non-empty local file, sent or left out, is on the server under its key, if length and digest tell it from the other files listed |
| LocalFiles.SecondRunFails | client/src/upload_files.rs:19-180 | a client run on a version that already has one of its non-empty files, whole or in part, never succeeds |
| LocalFiles.RunSucceedsExactlyWhen | client/src/upload_files.rs:19-180 | and exactly: a client with surviving names can succeed on a version it may open if and only if each local file can be created there, or is empty and there already |
| EndToEnd.UploadedDirectoryIsServed | client/src/upload_files.rs:19-159 | and once released, a GET of each local path is answered with the local file's bytes |
| HotReload.HotReloadState.Reload | server/src/hot_reload.rs:56-86 | takes and uses the senders in turn and stops at the first send that fails |
| HotReload.HotReloadManager.Reload | server/src/hot_reload.rs:21-26 | replaces the state exactly after a successful stop, and otherwise drops the new one |
| HotReload.ListenersAreOwned | server/src/lib.rs:51-70 | on every run of overlapping, failing and dropped reloads each live listener's sender is owned by the manager or one call, and with no call under way at most one listener per protocol is live |
| HotReload.HandOverSucceedsExactly | server/src/hot_reload.rs:21-26 | a hand-over succeeds exactly if all the manager's listeners are live, and then it owns the new senders only and the old listeners are stopped |
| HotReload.FailedHandOverStopsHttp | server/src/hot_reload.rs:57-84 | after a failed https send http is stopped and the manager has no sender left |
| HotReload.BeginStarts | server/src/lib.rs:51-70 | a reload starts one listener for each configured protocol and its call holds exactly their senders |
| HotReload.AnythingCanEnd | server/src/lib.rs:51-70 | a reload under way can be dropped and a listener can end at any time |
| HotReload.FailedHandOverKeepsHttps | server/src/hot_reload.rs:57-69 | after a failed http send the old https listener lives on and is still the manager's |

## Left out

- Concurrent operations other than a release: each guard with its effect is one step (or one torn step). The race of a save with a Finish is treated apart, in `Races.dfy`.
- System.SlowReleaseIsolated: a second release of a domain is not started while the first still walks; releases that overlap are treated apart, in `Races.dfy`.
- Recovery.UnfinishedNeverServed: says nothing of a version that was opened and never written to, which a crash during its opening can put online empty (`Lifecycle.RestartServesOnly`).
- Races.OverlapIsCoherentExactlyWhen: says nothing of a version that is served again after its directory changed since the last publication walked it; its snapshot may or may not still be right.
- LocalFiles.KeyNamesThePathExactlyWhen: uploading the root of the file system itself, whose keys lose every "/".
- UploadFiles.SuccessMeansArrived: a local file whose key is the marker's own name is not covered, because Finish removes that file.
- Caching.FileCache.CacheDir: files that cannot be read are skipped by the code; here every file can be read.
- Storage.DomainStorage.Init: I/O errors while the directories are listed or read end the start in the code; here every directory can be read.
- Storage.DomainStorage.RemoveDomainVersion: a directory that cannot be removed is an error in the code; here each can. An empty domain directory is no part of the model, so whether one was removed is not told.
- Storage.DomainStorage.GetFilesMetadata: a file whose digest cannot be read is left out by the code; here every file can be read.
- Storage.DomainStorage.GetDomainInfoByDomain: the walk over a domain's versions includes the domain directory itself, so a domain named "5" would count itself as version 5; and the walk over domains includes the configured directory, which is listed as a domain if its own name is one. Domains named like numbers and a configured directory named like a host are not modelled.
- Empty domain directories, file times and permissions, and durability of completed writes below the file system.
- Two storage instances over one disk: after a hot reload the admin side keeps the old instance while the public side has a new one, so coherence is stated for one instance.
- HTTP routing, multipart parsing, authorisation, JSON and query binding, including the delete request whose options the client sends where the server does not look.
- Serving.CacheOrFileReply: what the conditional headers of a request lead to is an input.
- gzip, MD5, mime guessing and percent-coding are given functions; only that gzip and percent-coding can be undone is used, and that percent-decoding changes a string only by shortening it by two characters or more. Paths are sequences of characters, so UTF-8 errors appear only as a failed decoding.
- Merging of per-domain cache settings with the defaults: the resulting configuration is an input.
- TLS, sockets, CORS, redirects, the cron schedule, the command line, the JavaScript wrapper and logging.
