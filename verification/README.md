# OpenBucket, modelled and proved in Dafny

OpenBucket turns a directory into an S3-compatible object store, meters its use through a hosted
control plane and lets browsers upload files in parts. This project models the stateful parts of
that system and proves what they promise, over all inputs, all interleavings of their steps and all
moments at which a process may crash. `dafny verify dfyconfig.toml` checks everything.

## How the project is laid out

- **The object store is a flat map.** `ObjectTree` has a bucket's directory tree and the
  file-system calls on it, `TreeRefinement` shows that storing and deleting through those calls
  changes exactly one entry of the flat map of objects, and `DiskStore` has the store's methods with
  the failures they may meet. Deleting a fresh object restores the very same directories. Whether a
  put succeeds depends on the flat map alone, except for one thing the code leaves behind: a put
  that fails after creating its directories does not remove them, and the directory's name can then
  no longer be stored (`LeftoverDirectoryBlocks`).
- **Listing.** `Grouping` folds keys into common prefixes, `Delimiters` says which delimiters a client
  may use to walk a bucket, `Pagination` follows continuation tokens over fixed and changing
  buckets, and `Listing` puts them together. The listing is sorted with `localeCompare` and resumed
  with `>`; both orders are parameters. Paging works for every page size exactly when the two agree
  on the listing (`EveryPageSizeIff`), and `CollationLosesKeys` is a bucket on which they do not.
- **Usage metering.** `ControlPlane` has one node's document and its handlers, `Metering` the
  protocol between reporters and control plane, over a network that loses, repeats and reorders.
- **Private files.** `PrivateFile` replaces a file with every intermediate disk state recorded;
  `CredentialStore` has the saved node credentials and the directory lock that guards them.
- **Request signing.** `PercentEncoding`, `CanonicalRequest` and `AmzDate`; percent-encoding follows
  section 2.3 of RFC 3986, the length of keys section 3 of RFC 3629.
- **Multipart uploads.** `MultipartStore` is the server, `Tiling` the arithmetic of slices,
  `UploadClient` the browser's loop; the client runs against the server over a failing network.
- **The rest of the store.** `StoreLock` (single writer), `Catalogue` (buckets and credentials with
  rollback and crashes) and `StatsCache`.
- **Elsewhere.** `RateLimit` of the control plane; `CommandLine`, `OptionSyntax` and `DetachedArguments` of
  the CLI.
- `Text`, `Sorting`, `CodeOrder`, `ObjectKeys`, `Files`, `StoreErrors`, `Arithmetic` and `Wrappers` are
  shared by the others.

Code that changes state is a class or a method with loops, proved against functions of the inputs or
of the old state; code made of expressions is functions. Which system calls and requests fail is a
parameter, and contracts say exactly when an operation succeeds and with which error it fails. Protocols with concurrent participants are
step relations, and their properties hold in every state of every run.

## Where the code does less than one would expect

- Sort order and cursor order differ, so keys can be lost between pages: `Listing.CollationLosesKeys`.
- A failed put leaves empty directories that block a key: `TreeRefinement.LeftoverDirectoryBlocks`.
- A put whose last step, reading the stored file back, fails reports an error although the object is
  stored: the `StatFailed` outcome of `DiskStore.DiskStore.PutObject`.
- A common prefix that ends in a reserved segment is shown to clients but refused as a prefix to list
  next: `Delimiters.UnsafeDelimiterRefused` and `Delimiters.SlashDelimiterIff`.
- A detached serve with a bare `--` may start a different command than the one that was parsed:
  `DetachedArguments.DetachedChildSameCommandIff` says exactly when it does not.
- The single-writer property needs more than the code ensures. Each of these is a run with two owners:
  judging and removing a stale lock apart (`StoreLock.SplitBreakAdmitsTwo`); comparing the nonce and
  removing the lock apart (`StoreLock.SplitCloseAdmitsTwo`); another store of the process breaking
  the lock while a failed open has forgotten the path but not yet removed its file
  (`StoreLock.SplitFailureAdmitsTwo`, `src/daemon/store.ts:320-323`); and closing a store a second
  time, during or after the first close, once the process has another store at work
  (`StoreLock.OverlappingClosesAdmitTwo`, `StoreLock.ClosingTwiceAdmitsTwo`). `StoreLock.Disciplined`
  excludes these steps and no others. The daemon itself closes its store once (`src/daemon/index.ts:439-449`).
- A put whose final stat fails has stored its object without invalidating the statistics cache, so a
  later call may still count without it: `StatsCache.FailedPutIsHidden`.
- A rate-limit upsert that is applied only after its window's counter has been deleted restarts the
  count (`RateLimit.LateUpsertRestartsCount`); `RateLimit.WindowBoundIff` says exactly when the bound
  holds, and `RateLimit.PromptBounds` that timely upserts always keep it.
- A passing `lstat` failure while buckets are discovered forgets the bucket's record, and the
  directory is adopted again as a private bucket: `Catalogue.DiscoveryExactIff` says exactly when
  failures change nothing.
- A lock holder that overstays the staleness limit loses an update: `CredentialStore.OverstayingLosesUpdate`.
- Request stamps of the years 0 to 99 are never accepted, because the platform's `Date.UTC` moves
  them to the twentieth century: `AmzDate.AcceptedIff`.

## Model

| member | source | states |
|---|---|---|
| ObjectKeys.KeysArePaths | src/daemon/store.ts:566-578 | Keys and the paths of a directory walk correspond one to one, so a map of paths is a map of keys |
| ObjectKeys.ValidBucketNameIff | src/daemon/store.ts:122-137 | The bucket names, character by character: length, alphabet, ends, neighbours of a dot, and no IPv4 address |
| ObjectKeys.PlainKeyIff | src/daemon/store.ts:139-156 | A key of lower-case letters and digits is valid exactly if it has 1 to 1024 of them |
| Text.Utf8Shortest | src/daemon/store.ts:140 | A character counts for as many bytes as its bits need in UTF-8 and no more |
| Text.Utf8Adds | src/daemon/store.ts:140 | The length of a text adds up over its pieces |
| Text.LowerIs | src/daemon/store.ts:147 | Lower-casing replaces each capital letter by its small one, and keeps the rest but the Kelvin sign |
| ObjectTree.ContentsPrefixFree | src/daemon/store.ts:620-652 | In every tree no object's path runs through another object |
| TreeRefinement.MkdirThenRenameInserts | src/daemon/store.ts:624-642 | Creating the parents and then renaming succeeds exactly when, and gives exactly what, one recursive insertion does |
| TreeRefinement.InsertContents | src/daemon/store.ts:620-652 | A stored object sets exactly its own entry of the flat map |
| TreeRefinement.InsertIff | src/daemon/store.ts:622-642 | An object can be stored exactly when the keys stay prefix-free and no directory without objects has its name |
| TreeRefinement.TidyInsertIff | src/daemon/store.ts:622-642 | Without leftover directories whether a put succeeds depends on the flat map alone |
| TreeRefinement.LeftoverDirectoryBlocks | src/daemon/store.ts:624-651 | The directories a failed put leaves are invisible in the map yet make their own name impossible to store |
| TreeRefinement.UnlinkThenPruneRemoves | src/daemon/store.ts:668-676 | Removing the file and running the pruning loop is exactly one recursive removal that drops emptied directories |
| TreeRefinement.UnhinderedPrune | src/daemon/store.ts:671-676 | Pruning with individual `rmdir` failures is the plain pruning loop when none fails |
| TreeRefinement.RemoveContents | src/daemon/store.ts:663-682 | A deleted object takes exactly its own entry out of the flat map |
| TreeRefinement.RmdirContents | src/daemon/store.ts:673-676 | A pruning step never changes the flat map |
| TreeRefinement.TidyUnique | src/daemon/store.ts:671-676 | A tree without empty directories is determined by its flat map |
| TreeRefinement.RemoveUndoesInsert | src/daemon/store.ts:620-682 | Deleting a freshly stored object restores the very same tree, directories included |
| TreeRefinement.RunRefinesMap | src/daemon/store.ts:620-682 | Over every run of puts and deletes the tree stays tidy and its flat map is what the same run makes of a plain map |
| TreeRefinement.RunsAgree | src/daemon/store.ts:620-682 | Runs that leave the same objects leave the same directories |
| TreeRefinement.FailingRunRefinesMap | src/daemon/store.ts:620-682 | Over every run in which any put or delete may fail at any step and leave directories behind, the flat map is the fold of the operations that took effect |
| TreeRefinement.PutTakesEffectIff | src/daemon/store.ts:622-642 | A put takes effect exactly when its directories are made, it comes to its rename, the keys stay prefix-free and no leftover directory has its name |
| DiskStore.DiskStore.RequireBucket | src/daemon/store.ts:477-485 | Passes exactly for a valid name that is recorded and is a real directory |
| StoreErrors.BucketRefusal | src/daemon/store.ts:477-485 | Which of the three refusals is given, each exactly under its own condition |
| DiskStore.DiskStore.PutObject | src/daemon/store.ts:620-652 | The exact answer and the exact tree, for every outcome of the body, its digest and the file system: a stored body has the declared digest, any other is refused as a checksum mismatch; success sets exactly this key of the flat map; any failure but that of the final stat changes no object |
| DiskStore.DiskStore.StoreBody | src/daemon/store.ts:622-651 | The same for a put from its path check on, in an existing bucket |
| DiskStore.DiskStore.MakeParents | src/daemon/store.ts:624 | Which directories exist afterwards, also when cut short, and that the flat map is never changed |
| DiskStore.DiskStore.PlaceFile | src/daemon/store.ts:636-647 | The exact error of rename or final stat, and what the tree then is |
| DiskStore.PutIsAttempt | src/daemon/store.ts:620-652 | By its answer alone: a put that succeeds, or only fails to read back, has inserted its object, and any other has at most made parents |
| DiskStore.OwnDigestChangesNothing | src/daemon/store.ts:633 | Declaring the digest of the body, in capitals or not, gives the same answer and tree as declaring none |
| DiskStore.DiskStore.DeleteObject | src/daemon/store.ts:663-682 | Exactly when it returns true, false or which error; removes exactly this key and prunes exactly the directories an unhindered run of the loop would, up to the first `rmdir` that fails |
| DiskStore.DiskStore.RemoveFile | src/daemon/store.ts:668-676 | A deletion whose `rm` goes through takes this key out of the flat map, and all emptied directories if no `rmdir` fails |
| DiskStore.DiskStore.PruneParents | src/daemon/store.ts:671-676 | The pruning loop is its recursive reference, stopped at the first failure, and leaves the flat map alone |
| DiskStore.DiskStore.Visit | src/daemon/store.ts:566-579 | The recursive walk finds exactly the objects below a directory under the prefix, each key once, in any reading order |
| DiskStore.DiskStore.ListObjects | src/daemon/store.ts:557-581 | Succeeds exactly for an existing bucket and acceptable prefix; lists exactly the map's keys under the prefix, each once, with size and etag, sorted |
| Grouping.GroupObjects | src/daemon/store.ts:589-604 | The loop keeps ungrouped keys in order and collects exactly the distinct common prefixes, sorted |
| Grouping.UnderCommonPrefix | src/daemon/store.ts:594-602 | A key starts with a common prefix exactly when it collapses into it |
| Grouping.GroupingPartitions | src/daemon/store.ts:589-604 | Each key is listed itself exactly when it is under no common prefix, and is under at most one |
| Grouping.CommonPrefixesIncomparable | src/daemon/store.ts:589-604 | No common prefix is a prefix of another |
| Grouping.ListUnderCommonPrefix | src/daemon/store.ts:589-604 | Listing a common prefix lists exactly the keys that collapsed into it |
| Grouping.RecursiveListingComplete | src/daemon/store.ts:557-604 | Listing every common prefix recursively ends and, unless refused, visits the flat listing with each key exactly once |
| Delimiters.SafeDelimiterAccepted | src/daemon/store.ts:559-563 | With a safe delimiter every common prefix of valid keys is a prefix the store accepts |
| Delimiters.SafeRecursionSucceeds | src/daemon/store.ts:557-604 | With a safe delimiter the recursive listing is never refused and complete |
| Delimiters.SlashDelimiterIff | src/daemon/store.ts:559-563 | For a delimiter with a slash, in every bucket: refused exactly when it is unsafe and some key below the prefix contains it |
| Delimiters.UnsafeDelimiterRefused | src/daemon/store.ts:559-563 | Every unsafe delimiter without a slash makes some valid key collapse into a prefix that is then refused |
| Delimiters.PlainDelimiterIff | src/daemon/store.ts:557-604 | A delimiter without a slash lets clients list every bucket recursively exactly when it is safe |
| Pagination.TokenAdvances | src/daemon/index.ts:844-851 | A continuation token is never empty and leaves strictly fewer entries to serve, so following tokens ends |
| Pagination.PageIs | src/daemon/index.ts:844-851 | A page has the first entries beyond the cursor in listing order, as many as asked for, and is truncated exactly when an entry beyond the cursor is not on it |
| Pagination.PagesCompleteIff | src/daemon/index.ts:838-851 | Following the tokens returns the whole listing in order exactly when it splits, in cursor order, at every page boundary |
| Pagination.EveryPageSizeIff | src/daemon/index.ts:838-851 | Paging is complete for every page size exactly when sort order and cursor order agree on the listing |
| Pagination.ShownRise | src/daemon/index.ts:838-851 | Whatever happens between requests, the keys shown strictly rise, so none is shown twice |
| Pagination.PresentIsShown | src/daemon/index.ts:838-851 | A key present at every request of a finished run is shown |
| Pagination.ChangingBucketExactlyOnce | src/daemon/index.ts:838-851 | With puts and deletes between pages, an entry present throughout appears exactly once and no other more than once |
| Pagination.CodeAfterIsStrict | src/daemon/index.ts:848 | The cursor comparison is a strict total order |
| CodeOrder.CodeAfterIsUnitOrder | src/daemon/index.ts:848 | It is the comparison of the two strings as UTF-16 code units |
| Listing.EntriesWellKeyed | src/daemon/index.ts:838-841 | Objects and common prefixes merged never share a sort key, and none is empty |
| Listing.EntriesAscend | src/daemon/index.ts:838-841 | If the two orders agree, the merged listing ascends in cursor order |
| Listing.ListingExactlyOnce | src/daemon/index.ts:828-859 | If the two orders agree, a client gets every direct object and every common prefix exactly once, for every page size |
| Listing.StableEntryShownOnce | src/daemon/index.ts:828-859 | A key that at every request of a finished run is listed directly or is a common prefix is shown exactly once |
| Listing.CollationLosesKeys | src/daemon/index.ts:841-848 | In a bucket of `a` and `B`, under any collation that puts `a` first, a page size of one never shows `B` |
| ControlPlane.NodeStore.HandleHeartbeat | server/control-plane/service.ts:504-579 | The transaction's document and event row are exactly the specified ones; accepted exactly for a valid token, an unseen event id and a first, later, or same run whose counters have not gone back; any other answer changes nothing |
| ControlPlane.HeartbeatAnswer | server/control-plane/model.ts:316-343 | Each of the four answers exactly under its condition on the record; the delta is all counters for a first or later run and the difference for the same run |
| ControlPlane.AcceptedChanges | server/control-plane/service.ts:541-579 | An accepted heartbeat adds the delta to usage, replaces the record and leaves the credential alone |
| ControlPlane.NodeStore.HandleRotate | server/control-plane/service.ts:388-422 | Refused exactly for a deleted node, unchanged then; otherwise only the new token authenticates, the version grows by one, and usage and counters stay |
| ControlPlane.NodeStore.HandleRevoke | server/control-plane/service.ts:424-455 | Refused exactly for a deleted node, unchanged then; otherwise no token authenticates, the node is not discoverable, and usage and counters stay |
| ControlPlane.NodeStore.HandleDelete | server/control-plane/service.ts:351-386 | A deleted node stays as it is; for any other no token authenticates afterwards, and usage and counters stay |
| Metering.DeltaIsGrowth | server/control-plane/model.ts:316-343 | An accepted delta is exactly the growth of the sum of each run's last accepted counters |
| Metering.OneRunCountsOnce | src/cli/main.ts:1747-1766 | One more run can raise what was counted by at most its own gain |
| Metering.GainsWithinTotal | src/daemon/store.ts:759-803 | What was counted per start time is within what the log gained in all runs |
| Metering.StepKeeps | server/control-plane/service.ts:504-579 | Every step of the protocol keeps the ledger, the bounds, the credential facts and that accepted heartbeats are behind the record |
| Metering.RunsKeepInv | server/control-plane/service.ts:504-579 | The invariant holds in every state of every run |
| Metering.MeteringConserved | server/control-plane/service.ts:504-579 | In every run usage is the sum of committed deltas, is the sum over daemon runs of their last accepted counters, and is within what the log gained while reporting |
| Metering.ReportedInFull | server/control-plane/service.ts:504-579 | In every run with rising start times, once each daemon run has been reported to its end, usage is exactly the total gain of the log |
| Metering.LastHeartbeatCommits | src/cli/main.ts:1747-1766 | With rising start times and a valid token, a heartbeat collected at the end of the log, sent and delivered is accepted with all the run has gained |
| Metering.LastReportCompletes | src/cli/main.ts:1747-1766 | So after each run's last report in order, usage is exactly the total gain: no restart of a daemon loses or freezes anything |
| Metering.BehindAddsNothing | server/control-plane/model.ts:322-342 | A heartbeat at or behind the record is refused, recognised, or adds nothing |
| Metering.ReplayAddsNothing | server/control-plane/database.ts:144-147 | Delivering an accepted heartbeat again, even after its event row expired, never raises usage in any later state |
| Metering.CredentialLifecycle | server/control-plane/service.ts:351-455 | In every run a token exists exactly while the node is active, discoverable implies active, and event versions never go back |
| Metering.RetiredTokenNeverCommits | server/control-plane/service.ts:504-515 | A replaced token never becomes valid again and commits no heartbeat, even one authenticated before |
| Metering.DeletedIsFinal | server/control-plane/service.ts:351-386 | After deletion the document and the ledger never change |
| PrivateFile.PrivateFile.RecoverPrivateBackup | src/cli/auth-session.ts:269-283 | The exact error; returning, it restores what a crash left; at every moment what recovery would find stays the same |
| PrivateFile.PrivateFile.RenamePrivateFile | src/cli/auth-session.ts:325-378 | The exact error and the exact disk after it, for every combination of failing calls; at every moment recovery finds the complete old or new value |
| PrivateFile.PrivateFile.ReplaceByBackup | src/cli/auth-session.ts:339-377 | The same for what follows once the old file turns out to be in the way |
| PrivateFile.ReplaceWorksIff | src/cli/auth-session.ts:325-378 | Replacing works exactly if the direct rename does, or after EEXIST, EPERM or EACCES each of the two retried renames works within five attempts and both removals of the backup work |
| PrivateFile.PrivateFile.MoveAside | src/cli/auth-session.ts:343-358 | The first retry loop ends with the error of the attempt that decides, and moves the file to its backup or changes nothing |
| PrivateFile.PrivateFile.MoveIn | src/cli/auth-session.ts:359-371 | The second retry loop likewise puts the new file in place or changes nothing |
| PrivateFile.RetriedIff | src/cli/auth-session.ts:343-371 | A retried rename works exactly if one of its five attempts meets no fault and those before it only transient ones |
| PrivateFile.PrivateFile.AtomicPrivateWrite | src/cli/auth-session.ts:380-399 | The exact error and the exact disk after it; cut short anywhere it leaves the complete old or new value |
| PrivateFile.PrivateFile.LockedWrite | src/cli/auth-session.ts:285-323 | With recovery run first, the same from whatever an earlier crash left |
| PrivateFile.ManyCrashes | src/cli/auth-session.ts:285-399 | After any number of interrupted writes recovery finds the first value or one of those written |
| CredentialStore.WriteNodeCredential | src/cli/auth-session.ts:558-567 | The filter and push compute the updated list |
| CredentialStore.KeptUnique | src/cli/auth-session.ts:560-564 | Filtering keeps the list unambiguous |
| CredentialStore.FindSpec | src/cli/auth-session.ts:541-546 | A lookup finds an entry of that control plane and name exactly when there is one |
| CredentialStore.WriteThenFind | src/cli/auth-session.ts:534-568 | A write keeps one entry per node id and name, is found afterwards, and drops only the entries it clashes with |
| CredentialStore.StepKeeps | src/cli/auth-session.ts:285-323 | Every step of timely writers keeps the lock exclusive, the snapshot current and the file sequential |
| CredentialStore.NoLostUpdates | src/cli/auth-session.ts:285-323 | In every interleaving within the staleness limit holders are exclusive and the file is the writes applied one after another |
| CredentialStore.OverstayingLosesUpdate | src/cli/auth-session.ts:303-312 | A run from an initial state in which a holder past the limit is displaced and its write lost |
| PercentEncoding.DecodeEncode | src/daemon/auth.ts:69-73 | Decoding an encoding gives back exactly the bytes |
| PercentEncoding.EncodeAlphabet | src/daemon/auth.ts:69-73 | An encoding contains no separator of the canonical request |
| PercentEncoding.EncodeOne | src/daemon/auth.ts:69-73 | Letters, digits and `-._~` are kept and any other byte is a percent sign with two upper-case hexadecimal digits |
| PercentEncoding.EncodeConcat | src/daemon/auth.ts:69-73 | Encoding goes byte by byte |
| PercentEncoding.DecodeEscape | src/daemon/auth.ts:83 | An escape in digits of either case decodes to the byte it spells |
| PercentEncoding.DecodeMalformed | src/daemon/auth.ts:83 | An escape cut short or with a character that is no digit makes the whole text malformed |
| PercentEncoding.DecodePlain | src/daemon/auth.ts:83 | Any other ASCII character decodes to itself |
| CanonicalRequest.CanonicalPathIff | src/daemon/auth.ts:79-85 | Canonical paths are equal exactly when the decoded segments are |
| CanonicalRequest.PathLayout | src/daemon/auth.ts:79-85 | Read back at the slashes, the canonical path is the encoding of each decoded segment of the rooted path, and exists exactly if every segment decodes |
| CanonicalRequest.CanonicalizeQuery | src/daemon/auth.ts:88-111 | The filling loop and sort compute the canonical query |
| CanonicalRequest.CanonicalQueryIff | src/daemon/auth.ts:88-111 | Canonical queries are equal exactly when the multisets of parameters other than the signature are |
| CanonicalRequest.QueryLayout | src/daemon/auth.ts:88-111 | Read back at the ampersands, the canonical query is one encoded `name=value` for each covered parameter, ascending by name and then by value |
| CanonicalRequest.SignedHeadersAscend | src/daemon/auth.ts:125-146 | An accepted list is strictly ascending, contains host and is determined by its text |
| CanonicalRequest.SignedHeadersIff | src/daemon/auth.ts:125-146 | A list is accepted exactly if it joins valid names, strictly ascending and with host among them |
| CanonicalRequest.HeaderNameIff | src/daemon/auth.ts:125-146 | The names allowed, by their alphabet |
| CanonicalRequest.TrimEnds | src/daemon/auth.ts:121-123 | Trimming takes off exactly the blanks at both ends |
| CanonicalRequest.NormalizedIsWords | src/daemon/auth.ts:121-123 | The normal form is the words of the trimmed value with one space between them |
| CanonicalRequest.WordsKeepText | src/daemon/auth.ts:121-123 | The words together are the text without its blanks |
| CanonicalRequest.NormalizedIff | src/daemon/auth.ts:121-123 | Header values have the same normal form exactly when their trimmed texts have the same words |
| CanonicalRequest.CanonicalHeadersIff | src/daemon/auth.ts:152-165 | Header blocks are equal exactly when every named header has the same normalised value |
| CanonicalRequest.SixPartsInjective | src/daemon/auth.ts:168-183 | Six parts joined by newlines can be told apart although the header block has newlines of its own |
| CanonicalRequest.CanonicalRequestIff | src/daemon/auth.ts:168-183 | Two accepted requests have the same canonical request exactly when they agree on everything the signature covers |
| CanonicalRequest.RequestLayout | src/daemon/auth.ts:168-183 | Read back line by line: the upper-cased method, the canonical path, the canonical query, `name:value` for each signed header in list order, an empty line, the list and the payload hash |
| AmzDate.FieldsDenote | src/daemon/auth.ts:265-273 | Every time has real calendar fields, and they denote it |
| AmzDate.FieldsCarry | src/daemon/auth.ts:251-260 | Fields out of range carry: twelve months are a year, and days, hours, minutes and seconds count on |
| AmzDate.DayFromYearClosed | src/daemon/auth.ts:251-262 | The years counted one by one follow the closed form of the Gregorian calendar for every year, before and after 1970 |
| AmzDate.Epoch | src/daemon/auth.ts:265-273 | Time zero is midnight of 1 January 1970 |
| AmzDate.FieldsAdvance | src/daemon/auth.ts:265-273 | At every time one more second moves the fields like a clock with a calendar, and one more day moves the date alone to the next day of the calendar |
| AmzDate.RealFieldsReturn | src/daemon/auth.ts:251-262 | Real fields are what the calendar gives back for the time they denote |
| AmzDate.ChronologicalIff | src/daemon/auth.ts:251-262 | Real fields are in lexicographic order exactly when the times they denote are |
| AmzDate.AcceptedIff | src/daemon/auth.ts:244-263 | A stamp is accepted exactly when it denotes a real UTC second of the year 100 or later |
| AmzDate.FormatParse | src/daemon/auth.ts:244-273 | Parsing a formatted time of the years 100 to 9999 gives the time back |
| AmzDate.EpochText | src/daemon/auth.ts:244-273 | Time zero is written and read as `19700101T000000Z` |
| AmzDate.StringOrderIsChronological | src/daemon/auth.ts:244-273 | On accepted stamps string order is chronological order |
| MultipartStore.MultipartStore.CreateMultipart | src/daemon/store.ts:835-843 | A new, empty upload under an unused id |
| MultipartStore.MultipartStore.PutPart | src/daemon/store.ts:856-885 | Exactly when a part is stored and when its etag is recorded, and which error else; a part replaces what was under its number |
| MultipartStore.MultipartStore.Assemble | src/daemon/store.ts:889-903 | Accepts a list exactly when every part is present with its etag, and concatenates the parts by ascending number |
| MultipartStore.MultipartStore.CompleteMultipart | src/daemon/store.ts:887-907 | The object becomes the assembled parts and the upload ends; otherwise which error, and nothing changes unless it came after the put |
| MultipartStore.MultipartStore.AbortMultipart | src/daemon/store.ts:909-912 | Removes exactly this upload |
| MultipartStore.HistoryIrrelevant | src/daemon/store.ts:856-907 | What completion assembles depends only on the last data stored under each listed number |
| Tiling.TilesConcat | app/lib/uploads.ts:175-178 | The slices put together are the file |
| Tiling.TilesCount | app/lib/uploads.ts:155 | There are as many slices as the client counts parts |
| Tiling.TileAt | app/lib/uploads.ts:176-178 | The slice cut by index arithmetic is the tile of that index |
| UploadClient.FullListCompletes | app/lib/uploads.ts:200-207 | Completing with the full part list assembles exactly the file |
| UploadClient.AnyOrderCompletes | src/daemon/store.ts:887-907 | So does any rearrangement of that list |
| UploadClient.UploadClient.ReportProgress | app/lib/uploads.ts:157-159 | The reported total is the sum of the progress array and never exceeds the file's size |
| UploadClient.UploadClient.Deliver | app/lib/uploads.ts:176-186 | A delivered request stores exactly the slice of its index, unless the server fails or the number is beyond 10000 |
| UploadClient.UploadClient.SendPart | app/lib/uploads.ts:179-196 | Exactly when a response comes, what the caller is told otherwise and what progress is shown; a response means the slice is stored; a lost response, a cancelled request or a late copy of an earlier one spoils nothing recorded |
| UploadClient.UploadClient.SendWithRetries | app/lib/uploads.ts:107-119 | Ends as the sequence of its attempts does; on success the slice is stored and shown as sent, and no other part's progress is touched |
| UploadClient.PartEndIff | app/lib/uploads.ts:107-119 | A part gets through exactly if some attempt within the limit does and none before it was cancelled |
| UploadClient.UploadClient.SendAllParts | app/lib/uploads.ts:174-198 | Ends as its first part that does not get through, or well; then every slice is stored and the list names them all in order |
| UploadClient.UploadClient.SentCompletes | app/lib/uploads.ts:193-207 | Once every slice is sent the list completes to the file and the progress adds up to its size |
| UploadClient.UploadClient.UploadMultipart | app/lib/uploads.ts:138-217 | The exact ending; the stored object is the file exactly if the completion took effect and untouched otherwise; nothing is left behind after success, nor after a failure whose clean-up arrives |
| UploadClient.WorksIff | app/lib/uploads.ts:138-217 | An upload succeeds exactly if its start, every one of its at most 10000 parts within its attempts, and its completion get through |
| StoreLock.StaleMeansUnowned | src/daemon/store.ts:293-306 | A lock judged stale belongs to no live store, unless to one of the judge's own process that cleans up a failed open |
| StoreLock.StepKeeps | src/daemon/store.ts:284-344 | Every disciplined step keeps the lock file that of the store which owns it, lets go of it or cleans it up |
| StoreLock.SingleWriter | src/daemon/store.ts:284-344 | In every disciplined interleaving with crashes, failing writes and reused process ids at most one live store holds the root, and the lock file is its own |
| StoreLock.CanAcquire | src/daemon/store.ts:287-318 | After every disciplined run that leaves no lock, any waiting store can go on to take the root |
| StoreLock.CanTakeOver | src/daemon/store.ts:293-318 | and can take it over from a process of the same host that is gone |
| StoreLock.CanRecover | src/daemon/store.ts:293-318 | So after a crash of the owner any waiting store of another process of the host can take over |
| StoreLock.CanRelease | src/daemon/store.ts:330-344 | After every disciplined run a store that has the root can go on to close, and leaves no lock |
| StoreLock.CloseRemovesOwnOnly | src/daemon/store.ts:330-344 | In every disciplined run, closing a store leaves the lock of whichever other store owns the root in place |
| StoreLock.FailureRemovesOwnOnly | src/daemon/store.ts:320-323 | In every disciplined run, the file removed after a failed write is the failing store's own and nobody has the root |
| StoreLock.SplitBreakAdmitsTwo | src/daemon/store.ts:293-310 | A run in which judging and removing a stale lock separately admits two stores |
| StoreLock.SplitCloseAdmitsTwo | src/daemon/store.ts:337-341 | A run in which comparing the nonce and removing the lock separately admits two stores |
| StoreLock.ClosingTwiceAdmitsTwo | src/daemon/store.ts:330-336 | A run in which closing a store a second time admits two stores |
| StoreLock.OverlappingClosesAdmitTwo | src/daemon/store.ts:330-336 | A run in which two overlapping closes of a store admit two others |
| StoreLock.SplitFailureAdmitsTwo | src/daemon/store.ts:319-324 | A run in which the clean-up after a failed write, forgetting before removing, admits two stores |
| RateLimit.RateLimiter.Consume | server/control-plane/service.ts:107-137 | Counts one more in the window of the clock reading and nowhere else, refuses exactly when the count exceeds the limit, and names the shortest whole wait that reaches a later window |
| RateLimit.CountersExact | server/control-plane/service.ts:118-129 | For every sequence of upserts and deletions a counter never exceeds its window's arrivals, and is exactly them if and only if it was not restarted |
| RateLimit.LiveCounterSurvives | server/control-plane/service.ts:122-125 | Expiry never loses the counter of a window, nor any of its count, before the counter expires |
| RateLimit.PromptNeverRestarts | server/control-plane/service.ts:115-129 | A window whose upserts are applied before its counter expires is never restarted, whatever the order of the clocks |
| RateLimit.AdmittedPerWindow | server/control-plane/service.ts:130-136 | Unless restarted, of each window exactly the first `limit` requests are admitted; if restarted, all up to the limit and more than the limit beyond it |
| RateLimit.WindowBoundIff | server/control-plane/service.ts:118-136 | For every run, limit and window: at most `limit` are admitted if and only if no more arrive or no upsert restarts the counter |
| RateLimit.EveryLimitIff | server/control-plane/service.ts:118-136 | The bound holds for all limits exactly when the counter is never restarted |
| RateLimit.SlidingBound | server/control-plane/service.ts:107-137 | At most twice the limit is admitted with clocks in an interval of one window length whose two windows keep the bound |
| RateLimit.PromptBounds | server/control-plane/service.ts:107-137 | So prompt upserts keep both bounds, whatever the order of the clocks |
| RateLimit.SlidingBoundIsMet | server/control-plane/service.ts:107-137 | The bound is met |
| RateLimit.LateUpsertRestartsCount | server/control-plane/service.ts:118-129 | An upsert applied after its counter was deleted restarts it and lets a second request into a window with a limit of one |
| RateLimit.RetryReachesLaterWindow | server/control-plane/service.ts:131-135 | Waiting the Retry-After always reaches a later window, one second less never does |
| StatsCache.StepKeeps | src/daemon/store.ts:393-406 | Every step keeps the cached scan later than each mutation that has invalidated the cache |
| StatsCache.FloorCoversReturned | src/daemon/store.ts:393-397 | What a call is held to covers every mutation that had returned when it began |
| StatsCache.NeverHidesCompleted | src/daemon/store.ts:374-406 | In every interleaving what a call reports about an object was true no earlier than every mutation that had returned before |
| StatsCache.FailedScanNotServed | src/daemon/store.ts:399-405 | No call is served from a scan that has failed, and the failure of a scan that is no longer cached leaves the cache alone |
| StatsCache.StableObjectsCounted | src/daemon/store.ts:374-406 | A finished call counts every object present since the last mutation that had returned, and none absent since |
| StatsCache.LookedTallies | src/daemon/store.ts:374-389 | The two running totals are always the number of objects looked at and the sum of their sizes |
| StatsCache.ExactWhenQuiet | src/daemon/store.ts:374-406 | With no mutation since, a finished call reports exactly the objects on disk, their number and the sum of their sizes |
| StatsCache.LeastIs | src/daemon/store.ts:374-406 | The lower bound is the objects present throughout, each at its smallest size |
| StatsCache.GreatestIs | src/daemon/store.ts:374-406 | The upper bound is the objects present at some moment, each at its largest size |
| StatsCache.TotalsBetween | src/daemon/store.ts:374-406 | In every interleaving both totals of a finished call lie between those of the two bounds, taken since the last mutation that had returned |
| StatsCache.FailedPutCounted | src/daemon/store.ts:642-646 | Every finished call counts the object of such a put if its scan started after the put took effect, and does not if it had ended before |
| StatsCache.FailedPutIsHidden | src/daemon/store.ts:642-646 | A run in which a put that fails after its rename is hidden from a later call |
| Catalogue.Catalogue.Save | src/daemon/store.ts:352-354 | The saved state becomes the one in memory or stays |
| Catalogue.Catalogue.CreateBucket | src/daemon/store.ts:492-511 | Exactly when it succeeds, with which error else and whether a directory then stays; memory and file agree also after a failed save, and the disk states on the way are the recorded ones, each one of three |
| Catalogue.Catalogue.DeleteBucket | src/daemon/store.ts:528-555 | The exact error, and whether the directory then is gone; memory and file agree also after a failed save, and the disk states on the way are the recorded ones, each one of three |
| Catalogue.Catalogue.SetBucketPublic | src/daemon/store.ts:513-526 | The exact error; changes exactly the flag, or nothing at all when saving fails |
| Catalogue.Catalogue.SetNodeName | src/daemon/store.ts:270-282 | The exact error; changes exactly the name, or nothing at all when saving fails |
| Catalogue.Catalogue.CreateCredential | src/daemon/store.ts:702-719 | The exact error; appends exactly this credential, or changes nothing |
| Catalogue.Catalogue.DeleteCredential | src/daemon/store.ts:721-734 | The exact error; removes exactly the first credential with the id, never the last one left, and puts it back in its place when saving fails |
| Catalogue.Catalogue.ForgetMissing | src/daemon/store.ts:410-419 | Keeps exactly the records whose directory is valid and can be looked at |
| Catalogue.Catalogue.AdoptFound | src/daemon/store.ts:420-431 | Adds exactly the valid directories without a record whose `stat` succeeds, as private buckets |
| Catalogue.Catalogue.DiscoverBuckets | src/daemon/store.ts:408-436 | Afterwards each bucket is what its record, its directory and the failures of looking at it make of it; with no failure the buckets are exactly the valid directories; it fails exactly if something changed and saving fails, and otherwise the file agrees |
| Catalogue.DiscoveryExactIff | src/daemon/store.ts:408-436 | Only valid directories are found; exactly when failures leave all of them found with their known records |
| Catalogue.CompletedKeepsMatch | src/daemon/store.ts:492-555 | Completed creations and deletions keep the catalogue equal to the directories |
| Catalogue.ReopenedIsDirectories | src/daemon/store.ts:408-436 | Reopening after any crash, with no look-up failing, yields exactly the valid directories |
| Catalogue.CrashedCreate | src/daemon/store.ts:492-511 | A creation interrupted anywhere leaves every other bucket as it was and the new one absent, as requested, or private |
| Catalogue.CrashedDelete | src/daemon/store.ts:528-555 | A deletion interrupted anywhere leaves every other bucket as it was and this one unchanged or gone |
| CommandLine.ParseOptions | src/cli/main.ts:322-378 | The index loop computes the token-by-token parse, whose meaning the next rows give |
| OptionSyntax.KeyIsOptionKey | src/cli/main.ts:311-315 | An option's key is the words of its name put together in camel case |
| OptionSyntax.ReadsItem | src/cli/main.ts:334-375 | Each item at the front of a token list sets exactly its own key to its own value, or adds its positional, and parsing goes on behind it |
| OptionSyntax.InlineSets | src/cli/main.ts:351-361 | For any value option without an equals sign in its name and any text, `--name=text` sets exactly that option's key to that text |
| OptionSyntax.SpellingsAgree | src/cli/main.ts:351-361 | `--name=text` and `--name text` are the same unless the text starts with two dashes |
| OptionSyntax.WrittenThenParsed | src/cli/main.ts:322-378 | Writing down any list of settings, flags and positionals and parsing it gives the map and list they denote, the last item with a key deciding |
| OptionSyntax.AcceptedIff | src/cli/main.ts:322-378 | The token lists accepted are exactly those that write down such a list |
| OptionSyntax.ServeAcceptedIff | src/cli/main.ts:392-446 | A serve command is its name in any case and a written list of its options with at most one positional; more positionals are the reported error exactly for such lists with more |
| DetachedArguments.DetachedArguments | src/cli/main.ts:2173-2178 | The filter and pushes compute the child's argument list |
| DetachedArguments.RoundFaithful | src/cli/main.ts:334-375 | The detach, foreground and open options are set by their own flag and by nothing else |
| DetachedArguments.ParseConcat | src/cli/main.ts:334-375 | Without a bare `--`, parsing a longer list goes on where parsing its front ended |
| DetachedArguments.ParseKept | src/cli/main.ts:334-375 | Parsing without the detach flags gives the same command without the detach option |
| DetachedArguments.ChildParsesSameIff | src/cli/main.ts:2173-2178 | For any suitable vocabulary the child parses the same command exactly when no bare `--` is present or the rewriting does not reach past it |
| DetachedArguments.ServeIsGood | src/cli/main.ts:420-437 | The options of serve are such a vocabulary |
| DetachedArguments.DetachedChildSameCommandIff | src/cli/main.ts:392-446 | The same for the serve command itself, for every argument list that parses |

## Left out

- Strings are sequences of Unicode characters compared as UTF-16; lone surrogates, which no UTF-8 request or file name can carry, are left out.
- HTTP servers, streams, sockets, child processes, tunnels, installers, mail and database drivers: plumbing. A database transaction and a file rename are one step that may fail.
- HMAC, SHA-256, MD5 and scrypt: digests are function parameters, credential hashes are numbers that never repeat.
- React and terminal user interfaces, documentation pages, form schemas, login and support flows: no property of the kind proved here.
- Symbolic-link checks, file permissions, access-control lists and the Windows-only rules for keys (`src/daemon/store.ts:150-154`).
- DiskStore.DiskStore.PutObject: does not model the remove-then-rename fallback, two writers of one key, the etag cache or the modification time; for an invalid key the code may report a file-system error it meets first instead of InvalidObjectName.
- DiskStore.DiskStore.DeleteObject: does not model the etag cache, and an invalid key is reported as such although the code may meet a file-system error first.
- DiskStore.DiskStore.ListObjects: does not model errors of the directory walk itself or objects that change under it.
- Grouping.GroupObjects: takes keys only; sizes, etags and times of the listed objects travel along unchanged in the code.
- Pagination.ChangingBucketExactlyOnce: speaks about entries; the conversion of tokens through base64url and of keys through XML is left out.
- ControlPlane.NodeStore.HandleHeartbeat: one node's document; endpoints, storage figures, route names, the name and node-id checks and the rate limit before the transaction are left out.
- Metering.MeteringConserved: one reporter runs at a time and its baseline is read at the moment it starts; a reading may be anything the log has reached, and event rows may expire at any time.
- PrivateFile.PrivateFile.AtomicPrivateWrite: the waits between attempts, file modes and access-control lists are left out.
- CredentialStore.NoLostUpdates: no writer crashes, and the timeout with which a waiting writer gives up is left out.
- CanonicalRequest.CanonicalRequestIff: header values are trimmed and methods upper-cased as for single-byte characters; URL parsing and UTF-8 decoding are left out, so segments and parameters are bytes.
- AmzDate.AcceptedIff: times are whole seconds.
- MultipartStore.MultipartStore.PutPart: uploads are numbered instead of random, the checksum check of a part is left out, and a failure to record the etag is one outcome.
- MultipartStore.MultipartStore.Assemble: a listed part whose etag file is missing counts as an invalid part, where the code reports the file-system error; quotes around a listed etag are taken off before.
- MultipartStore.MultipartStore.CompleteMultipart: a clean-up that fails leaves the upload whole.
- UploadClient.UploadClient.UploadMultipart: one client per upload id; the part size is positive, as the code assumes; a server that refuses to start an upload is a start that does not go through.
- StoreLock.SingleWriter: holds for disciplined runs, as listed above; locks of other hosts are never judged stale, as in the code.
- RateLimit.SlidingBound: one scope and identifier. That its two windows keep the bound is sufficient for the sliding bound, not necessary.
- StatsCache.NeverHidesCompleted: speaks of one object; the totals are in StatsCache.TotalsBetween, taken over all buckets together as `src/daemon/store.ts:819-823` adds them. A directory walk is taken to meet every object that is there all along. The public flag, which is changed without invalidating the cache, is excluded.
- Catalogue.Catalogue.DiscoverBuckets: is modelled as run when the store opens, not as run by a concurrent bucket listing, and without an error of reading the root directory itself.
- Folding the request log into analytics (`src/daemon/store.ts:759-803`): only its totals appear, as the log of the metering protocol.
- DetachedArguments.DetachedChildSameCommandIff: option keys are compared as a map, without the JavaScript object's prototype; the other commands of the CLI are left out.
- Range headers, durations, ports and human-readable formatting: single-branch members.
