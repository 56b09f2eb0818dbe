# bellastore, modelled in Dafny

bellastore files whole-slide scanner images by content. A scan found in an
ingress folder is hashed: the SHA-256 digest of its bytes, written in URL-safe
base64. The scan then moves into the storage folder `<storage>/<hash>/`. A SQLite
catalog with two tables keeps track of both steps:

- `ingress` holds `(hash, filepath, filename)` triples, with a UNIQUE constraint on the triple.
- `storage` holds rows keyed by hash.

Every scan carries a small state machine. It has four flags, valid, hashed, storage
and slide, which must always be set as a prefix.

The model covers the following, one Dafny module per concern:

| module | models |
|---|---|
| `Lifecycle` (lifecycle.dfy) | the `State` class, as a class over a four-element flag array |
| `Paths` (paths.dfy) | `os.path.join`, `basename` and `splitext` on path text |
| `Base64Url` (base64url.dfy) | RFC 4648 section 5 (URL-safe alphabet, with padding); encoding, decoding and their round trip |
| `Scans` (scans.dfy) | the `Scan` class: names, the extension allow-list, the chunked digest, `hash_scan` and `move` |
| `Helpers` (helpers.dfy) | `get_unique_scans` |
| `Catalog` (catalog.dfy) | the SQLite file and its two tables, as a class holding a set and a map |
| `IngressTable` (ingress_table.dfy) | `IngressTable.write` |
| `StorageTable` (storage_table.dfy) | `StorageTable.write` |
| `Tree` (tree.dfy) | directory trees in `os.listdir` order; the two walks over a storage folder; the bottom-up pruning walk |
| `Listing` (listing.dfy) | one directory listing, `os.rename` within it, and the catalog comparison of the integrity check |
| `ContentStore` (content_store.dfy) | the `Storage` class: `insert`, `insert_many`, `check_storage_integrity`, `get_existing_slides` |
| `Layout` (layout.dfy) | the `Fs` class |
| `Database` (db.py, in db.dfy) | the `Db` class; each catalog call is one transaction that commits on return and leaves the tables unchanged when it raises |
| `Backup` (backup.dfy) | `create_backup` names and `cleanup_old_backups` retention |

SHA-256 is a function-valued parameter `sha`. File contents are a map from paths
to bytes, or a `Tree.Node` tree. The wall clock and file creation times are
parameters.

Where the Python and the prose description of the system differ, the model
follows the Python:

- `.mrxs` is not on the allow-list (`src/bellastore/utils/constants.py:4`), so the
  multi-file hashing branch cannot be reached (`Scans.MrxsNeverValid`).
- `add_scan_to_ingress_db` calls a method that does not exist (see Findings).

## Model

| member | source | states |
|---|---|---|
| Lifecycle.State.constructor | src/bellastore/utils/state.py:29-36 | a new state has all four flags (valid, hashed, storage, slide) false |
| Lifecycle.Level | src/bellastore/utils/state.py:91-100 | the level counts the leading true flags: every flag below it is set, and the flag at it is not |
| Lifecycle.LevelIs | src/bellastore/utils/state.py:91-100 | the level is fixed by the position of the first false flag |
| Lifecycle.PrefixIffLevel | src/bellastore/utils/state.py:39-57 | the flags are a valid prefix exactly when the set flags are precisely those below the level |
| Lifecycle.FlagsAtLevel | src/bellastore/utils/state.py:103-115 | the flags of level k are a valid prefix of level k, and one step forward from them gives level k+1 |
| Lifecycle.AdvanceStep | src/bellastore/utils/state.py:110-113 | a step forward from a valid prefix below "slide" sets exactly the first false flag, changes no other flag, keeps the prefix valid and raises the level by one |
| Lifecycle.FreshAndFirstStep | src/bellastore/utils/state.py:29-36 | a fresh state is valid at "none"; after one step it is at "valid" and has not reached "hashed" |
| Lifecycle.State.IsValid | src/bellastore/utils/state.py:39-57 | true exactly when no true flag follows a false one |
| Lifecycle.State.HasState | src/bellastore/utils/state.py:60-78 | raises ValueError exactly when the flags are not a prefix; otherwise true exactly when the asked status is at or below the level ("none" always is) |
| Lifecycle.State.GetState | src/bellastore/utils/state.py:81-100 | raises ValueError exactly when the flags are not a prefix; otherwise returns the status whose rank is the level ("none" when no flag is set) |
| Lifecycle.State.MoveForward | src/bellastore/utils/state.py:103-115 | invalid flags: ValueError, nothing changes. At "slide": Warning, nothing changes. Otherwise the first false flag is set and the level rises by one |
| Lifecycle.FreshThenForward | tests/test_state.py:37-45 | a fresh state is "none"; after one `move_forward` it is "valid", `has_state("valid")` holds and `has_state("hashed")` does not |
| Paths.Basename | src/bellastore/utils/scan.py:66-76 | a file name never contains '/' |
| Paths.BasenameShape | src/bellastore/utils/scan.py:66-76 | the file name is the tail of the path that follows its last '/' |
| Paths.StripExt | src/bellastore/utils/scan.py:39-49 | the scan name is a prefix of the file name |
| Paths.StripExtOfNamed | src/bellastore/utils/scan.py:39-49 | for an ordinary name `stem.ext`, `splitext` removes exactly the last extension |
| Paths.BasenameOfJoin | src/bellastore/utils/scan.py:58-60 | joining a name without '/' onto a folder and taking the file name gives the name back |
| Base64Url.RoundTrip | src/bellastore/utils/scan.py:120-124 | decoding the URL-safe base64 text of any bytes gives those bytes back |
| Base64Url.EncodeInjective | src/bellastore/utils/scan.py:120-124 | different digests give different hash texts |
| Base64Url.EncodeLength | src/bellastore/utils/scan.py:120-124 | n bytes encode to 4·⌈n/3⌉ characters, each from the URL-safe alphabet or '=' |
| Base64Url.DigestText | src/bellastore/utils/scan.py:120-124 | a 32-byte digest encodes to 44 characters, so never the empty text, and never holds '/' |
| Scans.ScanPathCases | src/bellastore/utils/constants.py:4 | a path is valid exactly when it ends with ".ndpi", ".svs", ".tif" or ".tiff" |
| Scans.MrxsNeverValid | src/bellastore/utils/scan.py:116-119 | no valid path ends with ".mrxs", so the multi-file hashing branch is unreachable |
| Scans.HashOfShape | src/bellastore/utils/scan.py:120-124 | a scan hash is 44 characters, truthy, and names a single path component |
| Scans.HashOfInjective | src/bellastore/utils/scan.py:120-124 | two equal scan hashes come from equal digests: the hash depends on nothing else |
| Scans.HashFile | src/bellastore/utils/scan.py:100-113 | the chunks read are 1 to 65536 bytes each and concatenate to the file's content, so the digest returned is the digest of the whole content |
| Scans.Scan.constructor | src/bellastore/utils/scan.py:32-36 | `path` is kept; `filename` is its base name; `scanname` is the base name without its last extension; `hash` is None; the state is fresh |
| Scans.Scan.HashScan | src/bellastore/utils/scan.py:91-124 | invalid path: returns None, `hash` unchanged. Valid path that is not a file: raises ValueError, `hash` unchanged. Otherwise returns base64url(SHA-256(bytes)) and stores the same value in `hash` |
| Scans.Scan.Move | src/bellastore/utils/scan.py:51-63 | the move succeeds exactly when the file exists and `target_dir/filename` does not; then `path` becomes `join(target_dir, filename)`, whose base name is `filename`. Otherwise it raises RuntimeError and `path` is unchanged |
| Scans.MovedMeaning | src/bellastore/utils/scan.py:59 | a move takes the source out of the file set and puts the target in; no other file appears or disappears, and the count is kept |
| Scans.MoveAgainFails | src/bellastore/utils/scan.py:59-63 | a file that already sits in its target folder cannot be moved there again |
| Helpers.Kept | src/bellastore/utils/helpers.py:13-16 | every kept position is the first to carry its truthy hash |
| Helpers.KeptOrdered | src/bellastore/utils/helpers.py:13-21 | kept positions are in input order, and every first occurrence of a truthy hash is kept |
| Helpers.KeptCovers | src/bellastore/utils/helpers.py:13-21 | every truthy hash of the input is carried by a kept position |
| Helpers.SeenHashesHas | src/bellastore/utils/helpers.py:13-16 | the dictionary's keys are the truthy hashes seen so far |
| Helpers.SeenHashesMeaning | src/bellastore/utils/helpers.py:14-16 | a truthy hash is already a key exactly when its scan is not the first with that hash |
| Helpers.DedupStep | src/bellastore/utils/helpers.py:13-19 | one iteration adds a scan's hash to the keys, and the scan to the result, exactly when it is a first occurrence |
| Helpers.UniqueKept | src/bellastore/utils/helpers.py:11-22 | the result's scans come from the input and carry truthy hashes |
| Helpers.UniqueDistinct | src/bellastore/utils/helpers.py:11-22 | the result's hashes are pairwise distinct |
| Helpers.UniqueCovers | src/bellastore/utils/helpers.py:11-22 | every truthy input hash is carried by a scan of the result |
| Helpers.UniqueScansFacts | src/bellastore/utils/helpers.py:11-22 | the three facts above together |
| Helpers.FirstUnhashed | src/bellastore/utils/helpers.py:6-8 | None exactly when every scan has reached "hashed"; otherwise the position of one that has not |
| Helpers.FirstOfEachHash | src/bellastore/utils/helpers.py:11-21 | the first scan of every truthy hash, in input order |
| Helpers.GetUniqueScans | src/bellastore/utils/helpers.py:4-22 | raises exactly when some scan has not reached "hashed" (checked before any deduplication), naming such a position; otherwise returns the first scan of every truthy hash, in input order |
| IngressTable.Admitted | src/bellastore/database/ingress.py:38-68 | every surviving path has content |
| IngressTable.AdmittedMembers | src/bellastore/database/ingress.py:38-68 | a path survives exactly when it is in the batch, has an allowed ending, is a regular file, and its (hash, path, file name) row is not already in the table |
| IngressTable.RowsMembers | src/bellastore/database/ingress.py:71-76 | the rows written are exactly the rows of the surviving paths |
| IngressTable.AdmittedRowsAreNew | src/bellastore/database/ingress.py:59-68 | no row the batch writes was already in the table |
| IngressTable.SameContentTwice | src/bellastore/database/ingress.py:25-26 | one content under two valid paths is admitted twice: the result may repeat a hash |
| IngressTable.ProcessScan | src/bellastore/database/ingress.py:34-47 | the pool task hashes exactly the valid paths that are regular files; such a scan is at "valid" and carries the hash of its bytes |
| IngressTable.Consider | src/bellastore/database/ingress.py:34-68 | a path's scan is kept exactly when the path is admitted |
| IngressTable.KeepIfAdmitted | src/bellastore/database/ingress.py:49-68 | one task of the pool followed by the filter extends the survivors by the path exactly when it is admitted |
| IngressTable.HashAndFilter | src/bellastore/database/ingress.py:28-68 | one new scan per admitted path, in input order, each at "valid" with its hash |
| IngressTable.InsertOne | src/bellastore/database/ingress.py:71-86 | one INSERT adds the scan's row (an IntegrityError is swallowed) and the scan moves to "hashed" |
| IngressTable.InsertNext | src/bellastore/database/ingress.py:71-86 | one iteration of the insert loop adds exactly the row of scan j and moves only that scan to "hashed" |
| IngressTable.InsertAll | src/bellastore/database/ingress.py:71-86 | the table becomes the old table ∪ the rows of the survivors, and every survivor is at "hashed" |
| IngressTable.Write | src/bellastore/database/ingress.py:15-89 | raises (the SELECT's OperationalError) exactly when the file holds no tables, and then writes nothing. Otherwise returns one scan per admitted path, at "hashed" with the hash of its bytes; the ingress table becomes the old table ∪ their rows; the storage table is untouched |
| StorageTable.RowOfFolder | src/bellastore/database/storage.py:62-65 | a row's filepath is `storage_path/hash`, whose base name is the hash |
| StorageTable.Unstored | src/bellastore/database/storage.py:55 | only scans whose hash is not stored survive the filter |
| StorageTable.UnstoredComplete | src/bellastore/database/storage.py:55 | every scan whose hash is not stored survives the filter |
| StorageTable.UnstoredHashed | src/bellastore/database/storage.py:55 | filtering hashed scans leaves hashed scans |
| StorageTable.UnstoredDistinct | src/bellastore/database/storage.py:46-55 | filtering keeps the hashes pairwise distinct |
| StorageTable.PlacedOnly | src/bellastore/database/storage.py:57-65 | the only keys the inserts add are hashes of the batch |
| StorageTable.PlacedAt | src/bellastore/database/storage.py:57-65 | with distinct hashes, each scan gets the row (`storage_path/hash`, its file name) |
| StorageTable.PlacedRows | src/bellastore/database/storage.py:57-65 | with distinct hashes, exactly one new row per scan and no other |
| StorageTable.InsertEach | src/bellastore/database/storage.py:57-65 | the INSERT loop adds the batch's rows to the table |
| StorageTable.InsertRows | src/bellastore/database/storage.py:57-67 | only the storage table is written, with the batch's rows |
| StorageTable.FilterUnstored | src/bellastore/database/storage.py:55 | the comprehension keeps exactly the scans whose hash is not stored, in order |
| StorageTable.InsertUnstored | src/bellastore/database/storage.py:48-69 | returns exactly the unstored scans, and the table gains exactly their rows |
| StorageTable.WriteUnique | src/bellastore/database/storage.py:48-69 | on a deduplicated batch, returns exactly the unstored scans, adds their rows, and leaves the ingress table alone |
| StorageTable.Write | src/bellastore/database/storage.py:16-69 | raises ValueError when some scan has not reached "hashed", and otherwise OperationalError when the file holds no tables; in both cases the catalog is unchanged. Otherwise returns the first scan of each truthy hash whose hash is not stored, and adds one row per returned scan. No scan is moved or advanced |
| StorageTable.NewRows | src/bellastore/database/storage.py:57-67 | rows for distinct new hashes: each gets its row, earlier rows are unchanged, and no other key appears |
| StorageTable.WriteFacts | src/bellastore/database/storage.py:35-69 | the returned scans have pairwise-distinct hashes, none of them stored before; every unstored truthy hash of the batch is among them |
| StorageTable.WriteRows | src/bellastore/database/storage.py:57-69 | after a write, every returned scan has its row at `storage_path/hash`, and every earlier row is unchanged |
| StorageTable.RowsOfBatch | src/bellastore/database/storage.py:57-67 | rows for a batch with distinct, new hashes: one per scan, earlier rows untouched |
| Catalog.Catalog.constructor | src/bellastore/database/db.py:19 | a newly connected file has no tables and no rows |
| Tree.DirectScanFiles | src/bellastore/filesystem/storage.py:80-83 | every file collected from a folder has an allowed ending |
| Tree.DirectScanFilesNone | src/bellastore/filesystem/storage.py:80-83 | a folder with no file of an allowed ending contributes nothing |
| Tree.FirstDir | src/bellastore/filesystem/storage.py:80-85 | the subdirectory the walk enters first is the first in listing order, and only files come before it |
| Tree.ShallowScanFiles | src/bellastore/filesystem/storage.py:79-85 | the integrity check counts only files with an allowed ending |
| Tree.FirstInSubdirsAtFirstDir | src/bellastore/filesystem/storage.py:189-196 | the top-down search enters the first subdirectory first and stops at a match there |
| Tree.ShallowThenFirst | src/bellastore/filesystem/storage.py:184-203 | a folder with exactly one scan file by the integrity check's count yields that same file to the top-down search |
| Tree.FirstScanFinds | src/bellastore/filesystem/storage.py:189-196 | a file the search finds has an allowed ending |
| Tree.FirstInSubdirsFinds | src/bellastore/filesystem/storage.py:189-196 | a file found in a subdirectory has an allowed ending |
| Tree.ScanPathOfJoin | src/bellastore/filesystem/storage.py:82-83 | the extension test on a name carries over to the joined path |
| Tree.Prune | src/bellastore/filesystem/fs.py:113-124 | pruning keeps an entry's name and kind |
| Tree.PruneKeepsFiles | src/bellastore/filesystem/fs.py:113-124 | pruning below an entry deletes no file |
| Tree.PruneAllKeepsFiles | src/bellastore/filesystem/fs.py:113-124 | the walk deletes no file: the same files remain, with the same paths, bytes and order |
| Tree.PruneLeavesNoEmpty | src/bellastore/filesystem/fs.py:113-124 | below a pruned directory, no empty directory is left unless it is the backup folder or its removal failed |
| Tree.PruneAllLeavesNoEmpty | src/bellastore/filesystem/fs.py:113-124 | nested chains of empty folders are gone at every depth, apart from the backup folder and failed removals |
| Tree.PruneAllKeepsBackup | src/bellastore/filesystem/fs.py:116-117 | the backup folder survives, whatever it holds |
| Tree.RglobSameFiles | src/bellastore/filesystem/fs.py:55-59 | the rglob order lists the same files, each as often, as a depth-first walk: only the order differs |
| Listing.RenameMeaning | src/bellastore/filesystem/storage.py:117 | a successful rename keeps names unique, swaps the old name for the new one, and carries the renamed folder's content |
| Listing.ReconcileKeepsUnique | src/bellastore/filesystem/storage.py:113-119 | the run of renames keeps folder names unique, whether or not a rename fails |
| Listing.ReconcileNothingToDo | src/bellastore/filesystem/storage.py:113-119 | when every folder already carries its hash, no rename happens |
| Listing.CompareMeaning | src/bellastore/filesystem/storage.py:121-133 | the hashes left unmatched are the table's hashes minus the recomputed ones. Every lookup succeeds exactly when the recomputed hashes are pairwise distinct and all in the table, because `non_used_hashes` and `existing_hashes` are one set |
| Listing.CatalogAgrees | src/bellastore/filesystem/storage.py:121-133 | the catalog check passes exactly when the recomputed hashes are pairwise distinct and, as a set, equal the table's hashes |
| ContentStore.Inserted | src/bellastore/filesystem/storage.py:17-28 | as far as the store's listing and the scan's state decide it (the failures of `move_file` are under Left out), `insert` raises nothing exactly when the hash is truthy, no entry carries its name, and the state can still advance. It then appends the folder `<hash>` holding the file. It never removes an entry |
| ContentStore.InsertedNew | src/bellastore/filesystem/storage.py:17-26 | for a new truthy hash the folder is placed, and only the state machine can still raise, after the move |
| ContentStore.InsertedAllStops | src/bellastore/filesystem/storage.py:30-33 | once an insert raises, the rest of `insert_many` changes nothing |
| ContentStore.InsertedAllExtends | src/bellastore/filesystem/storage.py:30-33 | `insert_many` never removes an entry, whether or not an insert raises |
| ContentStore.InsertedAllMeaning | src/bellastore/filesystem/storage.py:30-33 | as far as the listing and the states decide it (the failures of `move_file` are under Left out), `insert_many` raises nothing exactly when each insert is possible after the earlier ones. It then appends one folder per scan and claims exactly their hashes |
| ContentStore.InsertedByHash | src/bellastore/filesystem/storage.py:18-20 | once a hash has its folder, `insert` of any scan with that hash raises, whatever its name and flags |
| ContentStore.CandidateFound | src/bellastore/filesystem/storage.py:74-93 | the file the integrity check counts in a candidate folder is the file the top-down search of `get_existing_slides` (`storage.py:184-203`) finds in that folder |
| ContentStore.Candidates | src/bellastore/filesystem/storage.py:74-93 | every candidate's file has an allowed ending |
| ContentStore.RecomputedNames | src/bellastore/filesystem/storage.py:99-117 | every recomputed hash is a name a folder can be renamed to: 44 characters, truthy, a single path component. Two candidates get the same hash only when their files have the same digest |
| ContentStore.ReconcileStops | src/bellastore/filesystem/storage.py:113-119 | once a rename has raised, later renames are never attempted |
| ContentStore.LocatedAll | src/bellastore/filesystem/storage.py:184-203 | locating every new folder means each of them holds a scan file |
| ContentStore.MatchEnumerated | src/bellastore/filesystem/storage.py:227-233 | every new folder matches its file's hash exactly when every enumerated pair matches |
| ContentStore.Storage.constructor | src/bellastore/filesystem/base_folder.py:10-12 | the store keeps its path and what the folder already holds |
| ContentStore.Storage.Insert | src/bellastore/filesystem/storage.py:17-28 | the listing and the error are as `Inserted` says. The scan moves to `<store>/<hash>/<file name>` exactly when the hash is truthy and new. Its state advances one step exactly when `insert` succeeds |
| ContentStore.Storage.Place | src/bellastore/filesystem/storage.py:19-26 | for a new hash: the folder is created, the file moved in, and the state advanced (or its refusal raised) |
| ContentStore.Storage.InsertViewed | src/bellastore/filesystem/storage.py:17-28 | `insert` as seen on the scans' views: the listing and the error are as `Inserted` says for that view; every listing of the scan changes as `insert` changes it, and no other scan changes |
| ContentStore.Storage.InsertNext | src/bellastore/filesystem/storage.py:30-33 | one insert of the loop, against the scans' views from before it: the listing and the error are as `InsertedAll` says for one more scan; on success the scans up to this one are in their hash folders, one step further. A scan listed again raises, its hash folder being there |
| ContentStore.Storage.InsertRun | src/bellastore/filesystem/storage.py:30-33 | the loop ends with the listing and the error as `InsertedAll` says on the views from before it; on success every scan, at every listing, sits in its hash folder one step further |
| ContentStore.Storage.InsertMany | src/bellastore/filesystem/storage.py:30-33 | as far as the listing and the states decide it (the failures of `move_file` are under Left out), succeeds exactly when every insert is possible after the earlier ones, and then returns the scans, each in `<store>/<hash>/` with its state one step further |
| ContentStore.Storage.GatherCandidates | src/bellastore/filesystem/storage.py:73-93 | the candidates in listing order, and whether every folder held exactly one scan file |
| ContentStore.Storage.HashCandidate | src/bellastore/filesystem/storage.py:99-105 | the pool task returns the hash of the candidate file's bytes |
| ContentStore.Storage.HashCandidates | src/bellastore/filesystem/storage.py:107-108 | one (folder, hash) pair per candidate, in order |
| ContentStore.Storage.RenameStep | src/bellastore/filesystem/storage.py:115-117 | a folder whose name differs from its hash is renamed to it, or the rename raises |
| ContentStore.Storage.RenameAndCompare | src/bellastore/filesystem/storage.py:113-127 | runs the renames as `Reconcile` says; with the catalog check, the lookups end as `Compare` says |
| ContentStore.Storage.CheckStorageIntegrity | src/bellastore/filesystem/storage.py:35-135 | mismatched folders are renamed to their hashes, and a failing rename raises. Otherwise the result is true exactly when every folder holds one scan file and, with the catalog check, the recomputed hashes are distinct and equal the table's hashes |
| ContentStore.Storage.FindScanFiles | src/bellastore/filesystem/storage.py:184-203 | None exactly when some new folder holds no scan file; otherwise each new folder once, with the file the top-down search finds |
| ContentStore.Storage.RecoverScan | src/bellastore/filesystem/storage.py:209-218 | a new scan of the file, carrying its hash, at "storage" |
| ContentStore.Storage.RecoverScans | src/bellastore/filesystem/storage.py:220-221 | one fresh scan per candidate, in order |
| ContentStore.Storage.FirstMismatch | src/bellastore/filesystem/storage.py:227-233 | None exactly when every recomputed hash equals its folder's name; otherwise the first that does not |
| ContentStore.Storage.GetExistingSlides | src/bellastore/filesystem/storage.py:137-238 | runs the integrity check's renames (a failing rename raises). It then returns None exactly when the check fails, a catalog hash names no folder, or a new folder has no scan file. It raises when a new folder's recomputed hash differs from its name, naming that folder. Otherwise it returns one scan at "storage" per folder in `directory_hashes − table_hashes` |
| ContentStore.Storage.RecoveredFrom | src/bellastore/filesystem/storage.py:209-234 | the recovered scans are one per new folder, each at that folder's scan file and at "storage" |
| Layout.ScanPathsMeaning | src/bellastore/filesystem/fs.py:55-76 | a path is kept exactly when a walked regular file carries it and it has an allowed ending |
| Layout.Fs.constructor | src/bellastore/filesystem/fs.py:42-52 | `storage_dir` is `root/storage` and `backup_dir` is `root/backup` |
| Layout.Fs.GetValidScansFromIngress | src/bellastore/filesystem/fs.py:55-76 | raises exactly when there is no ingress folder. Otherwise one new, unhashed scan per regular file below it whose path has an allowed ending, in the rglob order of Python 3.11: a folder's own files first, then each subfolder's, in listing order. Each path is the ingress folder's text joined with the names, which is the source's text when that folder is in `pathlib`'s normal form (see Left out) |
| Layout.Fs.KeepIfValid | src/bellastore/filesystem/fs.py:69-75 | a file's new scan is appended exactly when its path has an allowed ending |
| Layout.Fs.AddScanToIngress | src/bellastore/filesystem/fs.py:79-85 | hashing in place: a valid readable scan gets the hash of its bytes; a valid unreadable one raises; `hash` is otherwise unchanged |
| Layout.Fs.AddScanToStorage | src/bellastore/filesystem/fs.py:86-93 | raises, with nothing changed, when the scan has no hash. Otherwise the move succeeds exactly when the file exists and its storage target does not; the scan's path becomes `storage_dir/hash/filename` and the file set changes as `Moved` says. A refused move raises, with nothing changed |
| Layout.Fs.MoveNext | src/bellastore/filesystem/fs.py:97-99 | one iteration: scan i, at every listing of it, moves to storage exactly when the files the earlier moves left allow it. The run's outcome from i is then its outcome from i + 1, or a failure at i |
| Layout.Fs.AddScansToStorage | src/bellastore/filesystem/fs.py:97-99 | the outcome is `RunFrom`: it raises at the first scan without a hash, or at the first move the files forbid. Every listing of a scan before that point sits at its storage target, the others are where they were, and the file set is what the successful moves leave |
| Layout.Fs.RunFromMeaning | src/bellastore/filesystem/fs.py:97-99 | a run stops at a scan without a hash, or at one whose move is forbidden; every earlier move succeeded; it passes exactly when every scan has a hash and every move fits in turn |
| Layout.Fs.RunMeaning | src/bellastore/filesystem/fs.py:97-99 | the whole run passes exactly when every scan has a hash and every move fits in turn |
| Layout.Fs.FailureStaysFailed | src/bellastore/filesystem/fs.py:97-99 | a move that fails at step i keeps every longer run from fitting |
| Layout.Fs.ListedTwiceStops | src/bellastore/utils/scan.py:59-63 | a scan listed twice makes the run raise: at its second listing the file already sits at its target |
| Layout.Fs.PruneEntry | src/bellastore/filesystem/fs.py:113-124 | prunes below one entry, as `Prune` says |
| Layout.Fs.PruneEntries | src/bellastore/filesystem/fs.py:113-124 | one folder's pass of the bottom-up walk, as `PruneAll` says |
| Layout.Fs.RemoveEmptyFolders | src/bellastore/filesystem/fs.py:108-124 | the root's entries become `PruneAll` of the old ones. The root itself is never a candidate, and a failing `rmdir` leaves its folder while the walk goes on |
| Layout.PruneMeaning | src/bellastore/filesystem/fs.py:108-124 | after `remove_empty_folders`, the same files remain, no removable empty folder is left at any depth, and `root/backup` is kept |
| Database.Db.constructor | src/bellastore/database/db.py:31-34 | `sqlite_path` is `storage_dir/filename` |
| Database.Db.Open | src/bellastore/database/db.py:31-35 | constructing a `Db` raises (TableExists) exactly when the file already holds the tables, and then changes nothing; otherwise both tables exist and are empty |
| Database.Db.InitializeDb | src/bellastore/database/db.py:37-55 | the first CREATE raises exactly when the tables exist, and rolls back; otherwise both tables are created empty |
| Database.Db.AddScanToIngressDbAsWritten | src/bellastore/database/db.py:57-63 | every call raises before the INSERT, so the scan is not hashed and the catalog is unchanged |
| Database.Db.AddScanToIngressDb | src/bellastore/database/db.py:57-63 | hashes the scan, then inserts (hash, path, scan name). It raises exactly when a valid scan is unreadable, the file has no tables (after the hashing), or the non-NULL row is already present; then the table is unchanged. Otherwise the table gains exactly that row |
| Database.Db.IngressNext | src/bellastore/database/db.py:64-66 | one call of the loop adds exactly one row, or fails with the table unchanged; the rows of earlier scans stay |
| Database.Db.AddScansToIngressDb | src/bellastore/database/db.py:64-66 | the table only grows. When no call raises, every scan is hashed, has its row, and no other row was added |
| Database.Db.AddScanToStorageDb | src/bellastore/database/db.py:68-75 | a NULL hash raises before the move. A move the files forbid raises, with the scan, the files and the table unchanged. Otherwise the scan moves to `storage_dir/hash/filename` first; the INSERT then raises exactly when the file has no tables or the hash is already a key, with the table unchanged but the move kept. Otherwise the table gains exactly (hash → new path, filename, scanname) |
| Database.Db.StorageNext | src/bellastore/database/db.py:77-79 | one call of the loop keeps every earlier row; a scan that passes is recorded under a new hash |
| Database.Db.AddScansToStorageDb | src/bellastore/database/db.py:77-79 | rows already stored never change. When no call raises, every scan sits in its hash folder with its own new row, and no other hash was added |
| Database.Db.ReadAll | src/bellastore/database/db.py:81-85 | raises exactly when the file has no tables or the name is neither table. Otherwise it returns exactly that table's rows and changes nothing |
| Backup.Stem | src/bellastore/database/backup.py:34 | the stem is a prefix of the file name |
| Backup.Digits | src/bellastore/database/backup.py:33 | a zero-padded field has exactly its width, all decimal digits |
| Backup.DigitsValue | src/bellastore/database/backup.py:33 | a padded field reads back as the number it came from |
| Backup.StampInjective | src/bellastore/database/backup.py:33 | two valid times to the second with equal `%Y%m%d_%H%M%S` stamps are the same time |
| Backup.BackupNameMeaning | src/bellastore/database/backup.py:33-35 | a backup's name matches `*_backup_*.db`, names a file directly in the backup folder, and differs from the backup of another second |
| Backup.CandidatesHas | src/bellastore/database/backup.py:59-62 | the glob lists exactly the folder's files whose names match `*_backup_*.db` |
| Backup.WithoutHas | src/bellastore/database/backup.py:64-67 | unlinking by name keeps exactly the files whose names are not unlinked |
| Backup.InsertHas | src/bellastore/database/backup.py:59-62 | one insertion step of the sort adds exactly the one file |
| Backup.InsertOrdered | src/bellastore/database/backup.py:59-62 | one insertion step keeps the files ordered by creation time |
| Backup.InsertUnique | src/bellastore/database/backup.py:59-62 | one insertion step of a file with a new name keeps names unique |
| Backup.SortMeaning | src/bellastore/database/backup.py:59-62 | `sorted(key=getctime)` orders by creation time, oldest first, and neither loses nor adds a file |
| Backup.SortUnique | src/bellastore/database/backup.py:59-62 | sorting keeps the names, and keeps them unique |
| Backup.RetainedOnlyCandidates | src/bellastore/database/backup.py:57-67 | the clean-up only removes files, and only files the glob lists |
| Backup.NothingWhenFew | src/bellastore/database/backup.py:64-67 | with no more candidates than `max_backups`, nothing is unlinked |
| Backup.LeftAfterCut | src/bellastore/database/backup.py:64-67 | the candidates left are among the sorted ones after the cut |
| Backup.KeepsNewest | src/bellastore/database/backup.py:64-67 | every backup left is at least as new as every backup unlinked |
| Backup.CandidatesWithout | src/bellastore/database/backup.py:59-67 | listing the candidates commutes with unlinking |
| Backup.CountLeft | src/bellastore/database/backup.py:64-67 | with a non-negative limit, exactly min(n, max_backups) of the n candidates are left |
| Backup.NewestLast | src/bellastore/database/backup.py:59-62 | a file no older than every other sorts last |
| Backup.NewestSurvives | src/bellastore/database/backup.py:42-49 | a backup just written, with a new name and no older than any file, survives the clean-up that follows whenever `max_backups` ≥ 1 |
| Backup.Folder.constructor | src/bellastore/database/backup.py:59-60 | the folder holds the listed files |
| Backup.UnlinkStep | src/bellastore/database/backup.py:65-66 | popping and unlinking the next-oldest file extends the set of unlinked names by one |
| Backup.Folder.CleanupOldBackups | src/bellastore/database/backup.py:57-67 | the folder becomes `Retained`: the oldest candidates beyond `max_backups` are unlinked. A negative limit unlinks every candidate, then `pop` on the empty list raises |
| Backup.Saved | src/bellastore/database/backup.py:42-44 | after the copy is written it is in the folder, every other file is one that was there, and files with other names stay |
| Backup.CreateBackup | src/bellastore/database/backup.py:19-55 | a missing catalog file returns False and writes nothing. Otherwise the copy is saved under `BackupName` and the clean-up runs. The result is True exactly when the clean-up does not raise |

## Left out

Concurrency and order:
- Thread pools (`ingress.py:49-50`, `filesystem/storage.py:107-108,220-221`) run their tasks sequentially, in input order. The source collects `valid_scans` in completion order, so the model fixes one of the orders the source allows.
- `get_existing_slides` walks a Python set of folder names, so its order is unspecified. The model takes any enumeration and states nothing about the order of the result.
- `Tree.RglobFiles` follows `pathlib`'s `rglob` up to Python 3.11: a folder's own entries first, then each subfolder in listing order, walked the same way (a pre-order over folders). Python 3.12 walks the folders level by level instead, listing every subfolder of a walked folder before any folder below them, and later versions differ again. `Tree.RglobSameFiles` states the part that holds for every version: the same files come out, each as often.

I/O and the outside world:
- SHA-256 is a function parameter, not the FIPS 180-4 algorithm.
- File reading is replaced by a map from paths to bytes (or `None` for "not a regular file").
- `Layout.Fs` sees the disk twice: `entries`, the tree the pruning walk changes, and `files`, the set of regular-file paths the moves change. Each operation updates only its own view; the model does not keep the two in step.
- `files` holds regular files only. A move whose target name is taken by a directory is not modelled.
- `os.makedirs` in `Fs.__init__`, `BaseFolder.__init__`, `Scan.move` and `create_backup` is left out, so is its failure when a regular file already has the folder's name. So are prints and logging. The failures of `move_file` are under Weaker contracts, at `ContentStore.Storage.Insert`.
- SQLite is modelled as a set (ingress) and a map (storage), and the DDL text only as its constraints. The SQLite backup API is a single file write.
- `Fs.print_tree`, `get_files_from_ingress` and `get_files_from_storage` are left out: they only print and list.
- `get_entries_from_ingress_db`, `get_entries_from_storage_db` and `Db.__str__` are thin wrappers around `_read_all` plus printing.
- The `.mrxs` directory walk of `hash_scan` (`scan.py:126-142`) is unreachable, because ".mrxs" is not on the allow-list (`Scans.MrxsNeverValid`). Its folding order is not modelled.
- src/bellastore/filesystem/constants.py is not part of this model. `Scans.ScanExtensions` uses the list in src/bellastore/utils/constants.py.
- The end-to-end `insert_from_ingress` is referenced by the tests and `main.py` but defined nowhere, so it is not modelled.

Source inconsistencies:
- `Fs._add_scans_to_ingress` (`fs.py:94-96`) calls `add_scan_to_ingress`, which is defined nowhere, so it always raises AttributeError. It is not modelled; the same defect in `Db` is the finding below.
- `Db.__init__` passes one argument to `Fs.__init__`, which needs two. The model builds a `Db` from an `Fs` that already exists.
- `Scan.__init__` never creates `state`, yet every caller uses `scan.state`. The model gives each scan its own fresh `State`.
- `src/bellastore/database/ingress.py:7-8` imports `.utils.scan` and `.bellatrix_table` relative to the `bellastore.database` package. Neither module exists there, so importing `IngressTable` raises ImportError. The model follows the evidently intended imports: `bellastore.utils.scan` and `BaseTable` (`base_table.py`).

Catalog simplifications:
- Ingress rows are a set, so two identical rows with a NULL hash are one element. SQLite would keep both, because its UNIQUE treats NULLs as distinct.
- The storage table's foreign key to `ingress(hash)` is not enforced; SQLite does not enforce it without `PRAGMA foreign_keys`.
- SQLite table names are case-insensitive, and SQLite also answers `SELECT *` on its own schema table (`sqlite_master`, or `sqlite_schema` in newer versions). The catalog models only the two tables.
- `fetchall` returns a list. `ReadAll` returns the same rows as a set.

Path and name details:
- `Paths.Basename` and `Backup.Stem` work on the final component as `os.path` does. `pathlib`'s stripping of trailing slashes is not modelled.
- `Paths.StripExt` follows `os.path.splitext` for a leading run of dots.
- `Layout.Fs.GetValidScansFromIngress` (and `Tree.RglobFiles`, which it uses): each scan path is the `ingress_dir` text joined with the names by `Paths.Join`, while the source takes `str()` of the `Path` objects `rglob` yields (`fs.py:55-58`), and `pathlib` normalises the folder part. The two agree only when `ingress_dir` has no "." components and no repeated slashes. For `./ingress` the source reports `ingress/a.svs` where the model has `./ingress/a.svs`; for `in//box`, `in/box/a.svs` against `in//box/a.svs`; for `.`, `a.svs` against `./a.svs`. That text becomes `scan.path` and the ingress table's `path` column. A trailing slash is harmless, because `Paths.Join` adds no second slash.
- The `*_backup_*.db` glob also matches directories; the backup folder is modelled as files only.
- `Backup.Stamp` pads the year to four digits. `strftime('%Y')` may not pad years before 1000 on some platforms.

Weaker contracts:
- `Backup.Saved`: an overwritten backup keeps its place in the folder's order and takes the new creation time. The contract states membership, not position.
- `Database.Db.AddScansToIngressDb`: when a call raises, the contract says only that the table did not shrink. It does not name which scan raised.
- `Helpers.FirstUnhashed`: returns some position that has not reached "hashed", not necessarily the first, though the loop does stop at the first.
- `Layout.Fs.AddScanToStorage`: the error position is always 0. Only `AddScansToStorage` reports which scan had no hash.
- `Database.Db.ReadAll`: raises on every name but `ingress` and `storage`. SQLite would instead return the rows of its schema table for `sqlite_master` or `sqlite_schema`, and would accept the two names in any letter case.
- `ContentStore.Storage.Insert` (and so `Place`, `InsertRun`, `InsertMany`, `Inserted`, `InsertedAll`): the model takes the scan's file as present and its old folder as left alone, so two ways `move_file` (`base_folder.py:38-74`) raises are not modelled. First, with no file at `scan.path`, `shutil.move` raises FileNotFoundError after `makedirs` has created `<store>/<hash>`; the scan's path and state stay as they were, and the empty folder stays. Second, `Path.rmdir(p.parents[0])` runs after the move and before `scan.path` and the state are updated: it raises OSError when the old folder still holds anything, so of two scans from one folder `insert_many` stops at the first, with its file moved but its path and state not updated; when the folder is empty it deletes it. The model always moves, never removes the old folder, and so states "raises nothing exactly when" only as far as the store's listing and the scans' states decide it.
- `ContentStore.Storage.CheckStorageIntegrity` and `ContentStore.Storage.GetExistingSlides`: the storage table's hashes are the parameter `table`, read before the call. The `SELECT hash FROM storage` of `check_storage_integrity` (with `check_sqlite=True`) and of `get_existing_slides` raises OperationalError on a catalog file without tables; that error is not modelled.
- `ContentStore.Storage.InsertMany`: when an insert raises, the contract states the listing and the error. It does not say where the scans before the failing one were left.
- `Database.Db.AddScansToStorageDb`: when a call raises, the contract says only that stored rows did not change. It does not say which scans moved.

## Findings

| source | as written | input that shows it | evidently intended | confidence | as-written member | corrected member |
|---|---|---|---|---|---|---|
| src/bellastore/database/db.py:57-63 | `add_scan_to_ingress_db` calls `self.add_scan_to_ingress(scan)`. Neither `Db` nor its base `Fs` defines that name (`Fs` has `_add_scan_to_ingress`), so every call raises AttributeError and the transaction rolls back | any scan, e.g. a valid `.svs` file present in ingress | hash the scan with `_add_scan_to_ingress`, then INSERT (hash, path, scanname) | high (not executed) | Database.Db.AddScanToIngressDbAsWritten | Database.Db.AddScanToIngressDb |
