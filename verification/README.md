# Verified core of omnirepo

A Dafny model of the parts of omnirepo whose correctness rests on order, arithmetic or state over whole
runs, with proofs. `dafny verify dfyconfig.toml` checks the project.

| files | part of the system |
|---|---|
| `Records`, `DriftEngine`, `DriftAdapters`, `DriftTheorems`, `SharedFiles` | drift purge: which rows a sync deletes from a mirror and which files it moves |
| `DriftStore`, `DriftProtocol`, `DriftRaces`, `DriftUndo` | the same purge with its trash and its undo, as a protocol over database, files and trash |
| `AttemptLimiter` | the password-attempt limiter |
| `RotatingLog` | the size-rotating NDJSON audit mirror |
| `UniqueKeys` | the duplicate-key check of mirror filters |
| `BlobShares` | bytes of shared docker blobs attributed to repositories |
| `Timestamps`, `AuditPages` | canonical timestamps and keyset pagination of the audit log |
| `ScanPrune` | pruning of finished scans |
| `IntegrityLease` | the single-flight integrity check |
| `Bootstrap`, `BootstrapIngest`, `BootstrapSchema` | the first-boot file: validation, ingest, and the schema it meets |
| `Lex`, `Options` | string order and an option type |

## Form of the model

Code that mutates state is a class or a method with loops (`Tx`, `Database`, `Volume`, `AttemptLimiter`,
`AttemptPermit`, `Writer`, `ScanTables`, `IntegrityCheckJob`, the methods of `DriftEngine`, `DriftAdapters`,
`Bootstrap` and `BootstrapIngest`). Each is proved against a function of the old state, and the theorems are
lemmas about that function. What a function itself means is stated once more in the columns and literals of the
system, without going through the function (`DriftTheorems.APTMove`, `DriftStore.UpsertInColumns`,
`DriftAdapters.DEBGoes`, `ScanPrune.PrunedExactly` and others). Interleavings are step relations:
`DriftProtocol.Next`, `AttemptLimiter.LimiterStep`, `IntegrityLease.Next`. Failures of I/O and of the database are
parameters of the step or method that can fail. A table is a map from id to row, a directory a map from path to
contents; the bytes of an artifact are stood for by their digest. Clock readings, map iteration order, holder
names and new row ids are free.

## What came out

* The snapshot of an RPM row (`internal/driftpurge/rpm_adapter.go:70-85`) has no `files_json`, although the
  comment above the snapshot helpers calls it a verbatim column map: a row with a file list comes back with
  `[]` (`Records.RPMFileListLost`). The ingest paths do not reach this gap. Purges run on mirrors only, the RPM
  sync sets no file list, and uploads, which do, are refused by a mirror unless its guard fails to look the
  repository up (`internal/httpx/mirror_guard.go:71-80`). Every row a sync writes comes back exactly
  (`Records.SyncedRowsComeBack`); `Records.RestoreRoundTrip` has the exact condition for all rows.
* Only the APT adapter counts who else uses a file. `DriftTheorems.StrandsExactly` says when a purge takes the
  file of a row that stays. It cannot happen for APT, for PyPI (UNIQUE on the file name) and for canonically
  named RPMs (rows that share a file have the same drift key). It can for Helm, where a synced chart's file is
  named after the last segment of its upstream URL: `SharedFiles.HelmRunStrandsExactly` has the condition,
  `SharedFiles.ChartTgzIsTaken` a table that meets it.
* A purge can be undone completely if and only if no two of its rows outside APT share a file
  (`DriftUndo.CompleteUndoExactly`). Two RPM builds that differ in epoch only do share one: they are purged
  together and only one of them comes back (`SharedFiles.EpochTwinsCannotBothComeBack`).
* The undo of an APT purge needs an order: the entry with the payload before the metadata-only ones of its
  path. `DriftUndo.UndoExactly` decides every sequence of restores.
* When a run of publications, purges, moves and restores leaves every live row with its file and its bytes is
  decided step by step, for every run: `DriftRaces.RunExactly`. Orderly runs meet the condition
  (`DriftProtocol.EveryRunIsSafe`): those in which restores of one path do not overlap and nothing is published
  at a path being restored or moved away, or under another row's file.
* The restore handler looks at the destination and renames onto it in two steps, without a lock. From nothing,
  two overlapping restores of one path can leave a row with another row's bytes
  (`DriftRaces.OverlapPutsWrongBytes`) or, with a purge in between, without a file
  (`DriftRaces.OverlapLosesTheFile`).
* Publishing a second epoch of an RPM build, or a chart under the file name of another, puts its bytes under the
  first row at once (`DriftRaces.SecondEpochPutsWrongBytes`, `DriftRaces.SecondChartPutsWrongBytes`; ingest at
  `internal/protocol/rpm/sync_handler.go:401-424` and `internal/protocol/helm/sync_handler.go:520-541`). And
  between the file swap and the row of any publication with new bytes, the old row has the new bytes
  (`DriftRaces.PublishWindowExactly`).
* The percent guard multiplies in int64. It is exact up to (2^63 - 1) / 100 rows and no further
  (`DriftTheorems.GuardExactlyUpTo`).
* The log's shift renames ignore their errors. Over whole runs the files are always a contiguous piece of the
  log if and only if no rotation overwrites a file whose rename failed while an older one lives on
  (`RotatingLog.RunContiguousExactly`); one failed rename is enough for a gap
  (`RotatingLog.OneFailedShiftLeavesAGap`). A writer that keeps no history and fails to promote its new file
  goes on writing to a file nobody can see (`RotatingLog.LostBaseIsUnseen`).
* Validation of the first-boot file looks for repeated logins, projects and repositories only. A file that lists
  a member of a project twice, uses a token twice or gives one owner two keys of one name passes, and the boot
  then aborts in the transaction because the schema refuses a row: those files and no other valid ones
  (`BootstrapSchema.SchemaAcceptsExactly`).
* `internal/api/admin_db_health.go` comments that the job start in a lease snapshot is empty when no check
  runs; the code shows the start of the last one. `internal/api/repo_content.go:671-678` and the switch at
  762-772 disagree on failed children; the model follows the switch.

## Model

| member | source | states |
|---|---|---|
| Records.RoundNatExact | internal/api/admin_trash_drift.go:213-222 | binary64 rounding of a natural number goes to a nearest multiple of the local granularity and is the identity exactly on the multiples |
| Records.IntegerSurvives | internal/api/admin_trash_drift.go:213-222 | an int64 column survives JSON and back if and only if it has at most 53 significant bits |
| Records.SmallIntegersExact | internal/api/admin_trash_drift.go:213-222 | every integer of magnitude up to 2^53 is representable |
| Records.FirstInexactInteger | internal/api/admin_trash_drift.go:213-222 | 2^53 + 1 is not: it comes back as 2^53 |
| Records.NearestEven | internal/api/admin_trash_drift.go:213-222 | rounding goes to the nearer multiple, and halfway to the even one |
| Records.RepresentableExactly | internal/api/admin_trash_drift.go:213-222 | having 53 significant bits means being a number below 2^53 shifted left, of either sign |
| Records.LargestInt64TurnsNegative | internal/api/admin_trash_drift.go:213-222 | the largest int64 rounds up to 2^63 and comes back as the smallest |
| Records.KeyColumnsExactly | internal/metadata/migrations/011_deb_packages.up.sql:23 | two rows conflict if and only if they are of one kind and agree on the columns of its UNIQUE constraint, for all four tables |
| Records.SameFileExactly | internal/protocol/deb/sync_handler.go:319-330 | two rows name one file if and only if repository and file columns agree; for APT the pool path decides, and the file name only where a row has no pool path |
| Records.RestoredColumns | internal/api/admin_trash_drift.go:235-302 | every column is rebuilt from the key it was snapshotted under; integers are rounded, empty JSON columns defaulted, the RPM file list emptied |
| Records.RestoreRoundTrip | internal/api/admin_trash_drift.go:202-302 | purge then restore gives back the row itself if and only if its integers have 53 significant bits, its defaulted columns are not empty and an RPM row has no file list |
| Records.RestoreUpTo53Bits | internal/driftpurge/rpm_adapter.go:70-85 | for stored rows with integers up to 2^53 the restore is exact, except that an RPM row comes back with the file list `[]` |
| Records.RestoreFillsBlanks | internal/api/admin_trash_drift.go:202-302 | any row with integers up to 2^53 comes back unchanged but for blank JSON columns, which read `{}` or `[]`, and the RPM file list |
| Records.InsertableExactly | internal/metadata/deb_packages.go:50-52 | which columns of each table an insert refuses to find blank, and that a PyPI file is a wheel or an sdist |
| Records.SyncedRowsComeBack | internal/protocol/rpm/sync_handler.go:408-424 | every row as a sync writes it, once stored, comes back from a purge exactly |
| Records.RPMFileListLost | internal/driftpurge/rpm_adapter.go:70-85 | the gap in the snapshot: a row with a file list, which only uploads write, loses it |
| Records.RestoredKeepsFile | internal/api/admin_trash_drift.go:229-302 | the restored row names the file, digest, repository and kind of the purged one, whatever its other integers |
| DriftEngine.PurgeRow | internal/driftpurge/engine.go:276-300 | a failed marshal or DELETE leaves the table alone; otherwise exactly the row is gone and the move carries its path and snapshot |
| DriftEngine.Purge | internal/driftpurge/deb_adapter.go:117-163 | an APT move goes to the pool path, or to the file name of a row without one; it is metadata-only exactly when, after the DELETE, an APT row of the repository names the same pool file by those columns; all ways to fail |
| DriftEngine.SortBySample | internal/driftpurge/engine.go:190-205 | a permutation of the drift list, sorted by sample file name |
| DriftEngine.BlankNameIsSpelledOut | internal/driftpurge/rpm_adapter.go:102-107 | a row is listed in the sample under its file name, one without a file name under the name its package would be published as |
| DriftEngine.Run | internal/driftpurge/engine.go:154-259 | both guards, the sample, the count, the pending list and the table of a run for every outcome, including the prefix purged before a failure; an empty upstream purges nothing even when forced |
| DriftEngine.PurgeAll | internal/driftpurge/engine.go:239-258 | succeeds exactly when no row's purge fails, then returns one move per drifted row in order; else stops at the first failing row and returns no moves |
| DriftTheorems.PoolRefsMeaning | internal/driftpurge/deb_adapter.go:146-162 | the reference count is non-zero exactly when a row that is left resolves to the same file |
| DriftTheorems.APTMove | internal/driftpurge/deb_adapter.go:146-163 | the i-th move of a run in columns: it goes to the pool path whatever the file name, to the file name if the pool path is blank, and is retained if and only if a row left by then names that pool file |
| DriftTheorems.PoolPathBeatsFileName | internal/driftpurge/deb_adapter.go:146-163 | a file of the same name in another component neither diverts nor retains a move |
| DriftTheorems.RetainedMeaning | internal/driftpurge/deb_adapter.go:117-163 | a move is retained if and only if the file has a user after the run or a later row of the same run has the path |
| DriftTheorems.PoolFileMovedOnce | internal/driftpurge/deb_adapter.go:117-163 | per pool file: all moves retained while a membership survives, else exactly one physical move, after every metadata-only one |
| DriftTheorems.StrandsExactly | internal/driftpurge/engine.go:239-258 | a run moves the file of a surviving row if and only if that row shares it with a purged PyPI, RPM or Helm row |
| SharedFiles.SharersGoTogether | internal/driftpurge/engine.go:196-215 | if rows sharing a file have the same key no run strands a row |
| SharedFiles.APTRunStrandsNothing | internal/driftpurge/deb_adapter.go:117-163 | no APT run strands a row, however files are shared |
| SharedFiles.PyPIFilesAreDistinct | internal/metadata/migrations/012_pypi_files.up.sql:19 | two PyPI rows with one file have one unique key |
| SharedFiles.PyPIRunStrandsNothing | internal/driftpurge/pypi_adapter.go:71-111 | no PyPI run strands a row |
| SharedFiles.RPMFileNamesTheKey | internal/protocol/rpm/repodata.go:367-370 | a canonical RPM file name determines name, version, release and architecture |
| SharedFiles.RPMRunStrandsNothing | internal/driftpurge/rpm_adapter.go:63-98 | no RPM run strands a row while file names are canonical |
| SharedFiles.EpochTwinsShareAFile | internal/driftpurge/rpm_adapter.go:94-98 | builds that differ in epoch are two rows with one file and one drift key |
| SharedFiles.EpochTwinsCannotBothComeBack | internal/driftpurge/engine.go:315-333 | of two rows with one canonical RPM file a purge that takes one takes both, and every sequence of restores that includes the later one is refused |
| SharedFiles.EpochTwinsAreReady | internal/driftpurge/rpm_adapter.go:63-98 | such a purge exists for every build on file in two epochs that upstream drops |
| SharedFiles.HelmRunStrandsExactly | internal/protocol/helm/upstream_parse.go:140-165 | a Helm purge strands a row if and only if two charts of the repository have one file name, one dropped and one still listed upstream |
| SharedFiles.DroppedVersionTakesTheFile | internal/driftpurge/helm_adapter.go:68-99 | whatever the chart, the table with two of its versions under one file name and the upstream that lists the second only make a purge that strands |
| SharedFiles.ChartTgzIsTaken | internal/driftpurge/helm_adapter.go:68-99 | such a table with concrete rows: app 1.0.0 and 2.0.0 as chart.tgz, 2.0.0 listed |
| DriftTheorems.PurgesExactlyTheUnlisted | internal/driftpurge/engine.go:190-215 | a run that goes through deletes exactly the local rows whose key upstream does not list, one move each |
| DriftTheorems.SecondRunPurgesNothing | internal/driftpurge/engine.go:165-237 | the same run again is neither skipped nor purges anything |
| DriftTheorems.GuardIsExact | internal/driftpurge/engine.go:217-237 | up to (2^63 - 1) / 100 rows the int64 guard is the exact comparison of percentages |
| DriftTheorems.GuardExactlyUpTo | internal/driftpurge/engine.go:217-237 | for every int64 row count the guard decides as the exact comparison, for all drifts and percentages, if and only if the count is at most (2^63 - 1) / 100 |
| DriftTheorems.GuardWrapsBeyond | internal/driftpurge/engine.go:217-237 | one row more and a total purge passes a 50 percent guard |
| DriftTheorems.OneRunKeeps | internal/driftpurge/engine.go:217-237 | one unforced run keeps at least (100 - pct) percent of the mirror, whatever upstream says |
| DriftTheorems.RunsDecayBound | internal/driftpurge/engine.go:217-237 | after n unforced runs with any upstreams L_n * 100^n >= L_0 * (100 - pct)^n |
| DriftTheorems.RunsNeverEmpty | internal/driftpurge/engine.go:217-237 | unforced runs never empty a mirror that had a row |
| DriftAdapters.ProjectedLoads | internal/driftpurge/engine.go:190-205 | what an adapter's LocalRows returns is exactly the table's participating rows, each once, with its key |
| DriftAdapters.GoesIfUnlisted | internal/driftpurge/engine.go:190-215 | a row goes if and only if it takes part and upstream does not list its key |
| DriftAdapters.RPMKept | internal/driftpurge/rpm_adapter.go:51-61 | an RPM row of the repository is kept if and only if upstream lists its name, version and architecture |
| DriftAdapters.HelmKept | internal/driftpurge/helm_adapter.go:56-66 | a chart is kept if and only if upstream lists its name and version |
| DriftAdapters.RPMLocalRows | internal/driftpurge/rpm_adapter.go:51-61 | every row of the repository with key (name, version, arch) |
| DriftAdapters.HelmLocalRows | internal/driftpurge/helm_adapter.go:56-66 | every row of the repository with key (name, version) |
| DriftAdapters.PyPILocalRows | internal/driftpurge/pypi_adapter.go:49-69 | every row, its digest dropped from the key where upstream lists the file without one |
| DriftAdapters.PyPIKept | internal/driftpurge/pypi_adapter.go:49-69 | a PyPI row of the repository is kept if and only if upstream lists (project, file, digest) or (project, file, no digest) |
| DriftAdapters.SuiteRefs | internal/driftpurge/deb_adapter.go:88-95 | the suite table, the last row of an id winning, the zero value for unknown ids |
| DriftAdapters.Scope | internal/driftpurge/deb_adapter.go:55-77 | the synced suites, the empty name left out |
| DriftAdapters.DEBLocalRows | internal/driftpurge/deb_adapter.go:83-115 | exactly the rows of synced suites, with their flattened keys |
| DriftAdapters.DEBGoes | internal/driftpurge/deb_adapter.go:83-115 | over the suite table: an APT row of the repository goes if and only if its suite is there, has a name, was synced, and upstream does not list package, component and suite with the version and architecture |
| DriftAdapters.DEBKept | internal/driftpurge/deb_adapter.go:83-115 | the same for a row whose suite is known |
| DriftAdapters.UnsyncedSuitesAreSafe | internal/driftpurge/deb_adapter.go:83-115 | a row of a suite that was not synced, or of an unknown suite, is never purged |
| DriftAdapters.DEBKeyIsInjective | internal/driftpurge/deb_adapter.go:173-181 | without a bar in package or component, keys are equal if and only if all five fields are |
| DriftAdapters.BarsCollide | internal/driftpurge/deb_adapter.go:173-181 | with a bar in a name two different tuples share a key |
| DriftStore.Database.Insert | internal/metadata/deb_packages.go:46-84 | refuses rows with an empty required column; otherwise an upsert: every row that differs in a column of the constraint stays under its id, and the row takes a new id if and only if all do |
| DriftStore.UpsertInColumns | internal/metadata/deb_packages.go:46-84 | what an upsert leaves of every row, and whose place it takes, by the columns of the constraint |
| DriftStore.SecondSuiteIsAnotherRow | internal/metadata/migrations/011_deb_packages.up.sql:23 | a package inserted for a second suite leaves its row of the first as it was |
| DriftStore.MoveFailsExactly | internal/storage/trash.go:133-217 | a move fails if and only if the holder cannot be made or the rename of a file to take fails |
| DriftStore.FailedMoveTakesNothing | internal/storage/trash.go:133-217 | then no file has moved and at most a sidecar without payload is left |
| DriftStore.MoveDoesWhatItReports | internal/storage/trash.go:133-217 | otherwise there is one new entry with the snapshot; a missing source is reported if and only if there was no file; the file is gone and is the payload if and only if there was one and it was not retained |
| DriftStore.Volume.MoveWithSnapshot | internal/storage/trash.go:133-217 | files and trash after a move for every failure; a missing source makes a metadata-only entry and reports so |
| DriftStore.Volume.ApplyPendingMoves | internal/driftpurge/engine.go:302-333 | every move is attempted in order whatever fails; counts exactly the failures other than a missing source |
| DriftStore.FailuresExactly | internal/driftpurge/engine.go:315-333 | the reported count is the number of moves that fail where they come in the list; a missing source is none |
| DriftStore.Volume.RestoreDrift | internal/api/admin_trash_drift.go:32-188 | when a restore succeeds, and what each half leaves behind when it fails: nothing, or an orphan file |
| DriftProtocol.ProgramReads | internal/api/admin_trash_drift.go:229-302 | the sidecar reader keeps kind, file, digest and repository, which is all the safety proof needs |
| DriftProtocol.CheckThenRename | internal/api/admin_trash_drift.go:84-119 | with nothing in between, check and rename are the file half of the handler |
| DriftProtocol.IntactInColumns | internal/protocol/deb/sync_handler.go:319-330 | what the safety theorems say of a row, in columns: the file named by its own columns is there with the bytes of its digest column |
| DriftProtocol.UpsertKeepsTable | internal/metadata/deb_packages.go:46-84 | an upsert of a row with its file keeps files, unique keys and sharing in order when no other row of the file objects |
| DriftProtocol.PublishKeeps | internal/storage/pathstore.go:160-260 | publishing a row with its file keeps the invariant when no restore or pending move is under way at the path |
| DriftProtocol.PurgeOneKeeps | internal/driftpurge/engine.go:239-258 | purging one row in the open transaction keeps the invariant |
| DriftProtocol.CommitKeeps | internal/metadata/tx.go:26-60 | so does committing, which turns the collected moves into pending ones |
| DriftProtocol.ApplyKeeps | internal/driftpurge/engine.go:302-333 | so does applying any pending move with any failure |
| DriftProtocol.CheckKeeps | internal/api/admin_trash_drift.go:84-119 | so does the check of a restore, unless another restore of the path is under way |
| DriftProtocol.RenameKeeps | internal/storage/trash.go:219-236 | so does its rename, which looks at nothing |
| DriftProtocol.RowBackKeeps | internal/api/admin_trash_drift.go:120-175 | so does its row half |
| DriftProtocol.AcceptedRowHasItsFile | internal/api/admin_trash_drift.go:94-170 | an accepted row half finds its file with its bytes, unused or shared among APT rows |
| DriftProtocol.StepKeeps | internal/driftpurge/engine.go:239-275 | every orderly step of the protocol keeps the invariant, crashes and emptied trash included |
| DriftProtocol.RunsKeep | internal/driftpurge/engine.go:239-275 | the invariant holds at every point of every orderly run |
| DriftProtocol.EveryRunIsSafe | internal/driftpurge/engine.go:239-275 | from any state in order, at every point of every interleaving of publications, purges, moves and restores, with any failures, no live row points at a missing file or at other bytes, as long as restores of one path do not overlap and nothing is published at a path being restored or moved away |
| DriftRaces.PublishExactly | internal/storage/pathstore.go:160-260 | a publication leaves every row with its bytes if and only if every other row of the path has the new bytes |
| DriftRaces.PublishWindowExactly | internal/storage/pathstore.go:205-260 | so does its file swap alone if and only if all rows of the path, the one to be replaced included, have them |
| DriftRaces.BlindRenameExactly | internal/storage/trash.go:219-236 | a rename does if and only if no live row of the path has other bytes |
| DriftRaces.ApplyExactly | internal/storage/trash.go:133-217 | a deferred move, with any failure, does if and only if it takes no file away or nobody uses it |
| DriftRaces.RowBackExactly | internal/api/admin_trash_drift.go:120-175 | the row half of a restore does if and only if the row's file is there with its bytes |
| DriftRaces.StepExactly | internal/driftpurge/engine.go:239-275 | from a state in which every row has its file, a step of the protocol leads to one if and only if it meets its condition where it starts |
| DriftRaces.RunExactly | internal/driftpurge/engine.go:239-275 | for every run: every live row has its file with its bytes at every point up to n if and only if every step before n meets its condition |
| DriftRaces.OrderlyIsSafe | internal/driftpurge/engine.go:261-275 | under the invariant every orderly step meets its condition |
| DriftRaces.SecondPublicationPutsWrongBytes | internal/storage/pathstore.go:160-260 | a row published under another row's file name with other bytes puts them under that row at once |
| DriftRaces.SecondEpochPutsWrongBytes | internal/protocol/rpm/sync_handler.go:401-424 | as a second epoch of an RPM build does |
| DriftRaces.SecondChartPutsWrongBytes | internal/protocol/helm/sync_handler.go:520-541 | and a chart under the file name of another chart or version |
| DriftRaces.BothReachTheTrash | internal/driftpurge/engine.go:302-333 | a run from nothing puts two versions of one file in the trash |
| DriftRaces.OverlapPutsWrongBytes | internal/api/admin_trash_drift.go:86-119 | a complete run from nothing in which two restores of one path both pass their checks and a row ends with the bytes of the other |
| DriftRaces.OverlapLosesTheFile | internal/api/admin_trash_drift.go:86-119 | a complete run in which a purge commits around the late rename and a row ends without a file |
| DriftRaces.TwoVersionsExist | internal/api/admin_trash_drift.go:202-302 | rows for those runs exist |
| DriftRaces.PublishUnderMoveLosesTheFile | internal/driftpurge/engine.go:261-275 | a file published under a pending physical move is moved away |
| DriftRaces.PublishUnderRestoreIsReplaced | internal/api/admin_trash_drift.go:86-119 | a file published under a checked restore is replaced by the restored bytes |
| DriftProtocol.StepKeepsBytes | internal/storage/trash.go:133-236 | bytes go only by emptying the trash or being overwritten and come only by being published |
| DriftProtocol.RenameIsIntoFreePath | internal/api/admin_trash_drift.go:86-119 | in an orderly run no restore overwrites anything |
| DriftProtocol.NoBytesLost | internal/driftpurge/engine.go:302-314 | over whole orderly runs every file's bytes stay on disk until the trash is emptied or the file published over |
| DriftProtocol.PurgeExtendsTx | internal/driftpurge/engine.go:247-256 | the i-th purge of a run is a step of the protocol |
| DriftProtocol.RunIsATransaction | internal/driftpurge/engine.go:154-259 | Run's rows and pending list are those of Begin, one purge per drifted row, Commit |
| DriftProtocol.DriftPurge | internal/protocol/deb/sync_handler.go:308-360 | the tail of a sync: when it fails and when it is skipped, exactly; then neither rows nor files change, and otherwise both are as the specification says and the failed moves are counted |
| DriftUndo.EngineRunIsReady | internal/driftpurge/engine.go:239-258 | a run of the engine over rows the snapshot does not damage, whose files are there, meets the assumptions of the undo theorems; rows may share files |
| DriftUndo.DiskAfterIsApplied | internal/driftpurge/engine.go:315-333 | the disk the undo starts from is the one ApplyPendingMoves leaves |
| DriftUndo.FilesAfter | internal/driftpurge/engine.go:315-333 | after k moves a file is gone exactly when one of them was its physical move; the others are untouched |
| DriftUndo.PresentAtMove | internal/driftpurge/engine.go:315-333 | when its move comes a row's file is there exactly if no earlier purged row outside APT had it |
| DriftUndo.FinalEntry | internal/storage/trash.go:133-217 | the trash entry a purge leaves for its k-th row, and that it rebuilds to the row |
| DriftUndo.OnePayload | internal/driftpurge/deb_adapter.go:117-163 | at most one entry of a path holds the payload |
| DriftUndo.PayloadExists | internal/driftpurge/deb_adapter.go:117-163 | and one does if the file was moved |
| DriftUndo.FileHalfExactly | internal/api/admin_trash_drift.go:84-119 | the file half of a restore succeeds if and only if the entry has no earlier twin and a metadata-only one has its payload back |
| DriftUndo.RestoreExactly | internal/api/admin_trash_drift.go:84-175 | the same for both halves, whatever else has been restored |
| DriftUndo.RestoreAdds | internal/api/admin_trash_drift.go:84-188 | a restore that goes through adds that row and file and nothing else |
| DriftUndo.UndoExactly | internal/api/admin_trash_drift.go:94-188 | any sequence of restores of any of the entries goes through if and only if no pick has an earlier twin and every metadata-only pick of a moved file comes after the payload of its path |
| DriftUndo.UndoRestoresEverything | internal/api/admin_trash_drift.go:94-188 | restoring all entries in any order that goes through ends with the original rows and the original disk |
| DriftUndo.TwinStaysAway | internal/api/admin_trash_drift.go:84-119 | a later twin is refused whatever is restored before it |
| DriftUndo.CompleteUndoExactly | internal/api/admin_trash_drift.go:94-188 | a purge can be undone completely if and only if no two purged rows outside APT share a file; last purged first restored then works |
| AttemptLimiter.AttemptPays | internal/auth/attempt_limiter.go:97-122 | tokens stay between 0 and burst, the bucket's clock never goes back, and a token taken is paid for by elapsed time |
| AttemptLimiter.CreditsRefine | internal/auth/attempt_limiter.go:97-122 | counting whole nanoseconds of refill takes the same decisions and gives the same hint as fractional tokens |
| AttemptLimiter.FreshRepresents | internal/auth/attempt_limiter.go:97-102 | a new bucket is a whole number of nanoseconds |
| AttemptLimiter.RetryHintIsExact | internal/auth/attempt_limiter.go:103-121 | for one whole bucket: a refused peer passes its next token check if and only if it waited the missing nanoseconds; the hint is that wait, at least a second |
| AttemptLimiter.BurstIsAvailable | internal/auth/attempt_limiter.go:97-122 | of the attempts of a new peer at one moment exactly the first burst ones find a token |
| AttemptLimiter.EveryBucketIsWhole | internal/auth/attempt_limiter.go:87-122 | in every run every bucket holds a whole, non-negative number of nanoseconds of refill |
| AttemptLimiter.RetryHintOverRuns | internal/auth/attempt_limiter.go:87-122 | in every run with a clock that does not go back, a peer refused for tokens and neither evicted nor trying in between finds a token at its next attempt if and only if the missing time has passed, and always after the announced wait |
| AttemptLimiter.BucketAfterStep | internal/auth/attempt_limiter.go:87-122 | a bucket changes only by its own peer's attempts, and appears only by one |
| AttemptLimiter.NormalizeAttemptPeer | internal/auth/attempt_limiter.go:154-164 | the peer key is never empty |
| AttemptLimiter.PeerKeyExactly | internal/auth/attempt_limiter.go:154-164 | the key is the lower-cased host without blanks, port and brackets around it, character by character, or "unknown" if nothing is left |
| AttemptLimiter.PortsShareAKey | internal/auth/attempt_limiter.go:154-164 | one host is one peer whatever the port |
| AttemptLimiter.ScanFindsOldest | internal/auth/attempt_limiter.go:141-152 | in every iteration order the eviction scan finds a least recently seen peer, given no empty key |
| AttemptLimiter.EmptyKeyMisleadsScan | internal/auth/attempt_limiter.go:141-152 | with an empty key it can pass over the oldest peer |
| AttemptLimiter.AttemptPermit.Release | internal/auth/attempt_limiter.go:47-57 | the first release frees one slot, every further one none |
| AttemptLimiter.AttemptLimiter.constructor | internal/auth/attempt_limiter.go:59-83 | defaults for non-positive settings, no peers, no slots taken |
| AttemptLimiter.AttemptLimiter.EvictOldest | internal/auth/attempt_limiter.go:141-152 | removes exactly one least recently seen peer |
| AttemptLimiter.AttemptLimiter.TakeToken | internal/auth/attempt_limiter.go:92-122 | makes room, refills, takes or refuses, for every clock reading |
| AttemptLimiter.AttemptLimiter.Acquire | internal/auth/attempt_limiter.go:87-130 | the token step under the lock, then the slot step; unreleased permits are the occupied slots; peers and slots stay within bounds; when it succeeds and what it announces when not |
| AttemptLimiter.EveryStateIsOK | internal/auth/attempt_limiter.go:87-130 | in every interleaving of token steps, slot steps and releases tokens, peers and slots are within their bounds, backward clocks included |
| AttemptLimiter.SeenAtLatestAttempt | internal/auth/attempt_limiter.go:97-111 | in every run a peer's lastSeen is the clock reading of its latest attempt, refused ones included |
| AttemptLimiter.EvictsOnlyWhenFull | internal/auth/attempt_limiter.go:94-102 | a peer disappears if and only if a new one meets a full table, and then exactly one does |
| AttemptLimiter.IdlePeerGoes | internal/auth/attempt_limiter.go:141-152 | in every run the peer that disappears has a latest attempt no later than that of any peer that stays; with a clock that does not go back it came first or in the same nanosecond |
| AttemptLimiter.TokenBound | internal/auth/attempt_limiter.go:87-122 | during one bucket lifetime tokens taken plus tokens left never exceed burst plus one per refill interval the bucket's clock advanced |
| RotatingLog.Writer.constructor | internal/audit/ndjson.go:38-64 | defaults, and the size of the base file as found |
| RotatingLog.Writer.ShiftHistory | internal/audit/ndjson.go:112-127 | the history after dropping .keep and renaming the rest up, any renames failing |
| RotatingLog.Writer.Rotate | internal/audit/ndjson.go:100-157 | files, size and handle after a rotation and after each way it can fail, with and without history |
| RotatingLog.Writer.WriteJSON | internal/audit/ndjson.go:68-89 | rotates when the line does not fit, then writes to the open file; a failed rotation or write writes nothing |
| RotatingLog.FittingLineIsAppended | internal/audit/ndjson.go:78 | a line that fits changes no history file and loses nothing: the files hold what they held and then the line, whatever a rotation would have met |
| RotatingLog.OtherLineStartsAFile | internal/audit/ndjson.go:78-88 | a line that does not fit starts a new base and the old base becomes .1; into an empty base any line goes |
| RotatingLog.RotationLosesTheOldest | internal/audit/ndjson.go:100-157 | a rotation that goes through loses the lines of .keep and no others |
| RotatingLog.NothingLostBeforeKeep | internal/audit/ndjson.go:100-157 | while there is no .keep file no call loses a line |
| RotatingLog.ShiftSlots | internal/audit/ndjson.go:112-127 | where each history file comes from after the shift loop, for any set of failing renames |
| RotatingLog.RotatedConcat | internal/audit/ndjson.go:100-157 | read in order, the history after the shifts is the survivors, followed by the old base if it was moved |
| RotatingLog.RotationRetains | internal/audit/ndjson.go:100-157 | what any rotation, completed or failed, leaves: the survivors below .keep and the base |
| RotatingLog.RotationContiguousExactly | internal/audit/ndjson.go:100-157 | after any rotation, completed or failed, the files are a contiguous suffix of the log if and only if the survivors are closed towards the newer files |
| RotatingLog.GapIsNotSuffix | internal/audit/ndjson.go:112-127 | a file lost under an older survivor leaves a gap |
| RotatingLog.OneFailedShiftLeavesAGap | internal/audit/ndjson.go:112-127 | a concrete gap after one failed rename |
| RotatingLog.FailedRotationKeeps | internal/audit/ndjson.go:100-157 | a failed rotation keeps base and size; it drops at most the oldest history file if and only if every other one survives the shifts, as it does when no shift fails |
| RotatingLog.LostBaseIsUnseen | internal/audit/ndjson.go:128-146 | a writer without history whose new file is not promoted has nothing on disk and writes unseen until a rotation succeeds |
| RotatingLog.WriteKeepsSizes | internal/audit/ndjson.go:68-89 | whatever fails, the size counter is the base's size and no file exceeds the limit unless it holds one line |
| RotatingLog.WriteContiguousExactly | internal/audit/ndjson.go:68-89 | one call keeps the files a contiguous suffix of everything written if and only if its rotation, if any, is safe |
| RotatingLog.AnyWritesKeepFiles | internal/audit/ndjson.go:68-157 | at every point of every run, anything failing: sizes right, files within the limit unless of one line, none of the history empty |
| RotatingLog.FittingRunLosesNothing | internal/audit/ndjson.go:68-89 | over whole runs, any writes failing: while the base and the new lines fit in one file the history stays as it is, and the files gain exactly what was written |
| RotatingLog.RunContiguousExactly | internal/audit/ndjson.go:68-157 | over whole runs, each call with its own failures and failed shifts, the files are always a contiguous suffix of all lines written if and only if every rotation on the way is safe |
| RotatingLog.NoFailedShiftIsSafe | internal/audit/ndjson.go:68-157 | in particular they are while no shift rename fails, whatever else does |
| UniqueKeys.FilterHasUniqueKeys | internal/api/mirror_validate.go:340-393 | the loop over decoder tokens computes the machine's verdict |
| UniqueKeys.TokensDetermine | internal/api/mirror_validate.go:340-352 | no two documents have the same tokens, whatever follows them |
| UniqueKeys.ScanValue | internal/api/mirror_validate.go:340-393 | on the tokens of one value the machine gets past it if and only if no object in it repeats a key |
| UniqueKeys.ScanItems | internal/api/mirror_validate.go:340-393 | the same for the items of an array |
| UniqueKeys.ScanMembers | internal/api/mirror_validate.go:340-393 | the same for the members of an object, given the keys seen |
| UniqueKeys.UniqueKeysExactly | internal/api/mirror_validate.go:338-393 | for documents of any nesting the check succeeds if and only if the input ends cleanly and every object has distinct keys |
| UniqueKeys.BrokenInputRejected | internal/api/mirror_validate.go:345-352 | an input that breaks off in a syntax error is never accepted |
| UniqueKeys.ScanBalances | internal/api/mirror_validate.go:340-352 | acceptance needs the tokens to close what they open |
| UniqueKeys.DocumentDepth | internal/api/mirror_validate.go:340-352 | a document's tokens balance and no proper non-empty prefix of them does |
| UniqueKeys.CutOffRejected | internal/api/mirror_validate.go:340-352 | an input that ends, even cleanly, inside a document is rejected, whatever came before |
| BlobShares.SwapSums | internal/api/dashboard.go:61-95 | summing shares by repository or by blob is the same |
| BlobShares.UsersExactly | internal/api/dashboard.go:69-79 | a repository uses a blob if and only if one of its manifests names it as a layer or as its configuration |
| BlobShares.ChargedExactly | internal/api/dashboard.go:69-95 | a repository is charged something if and only if one of its manifests names a blob that has bytes |
| BlobShares.EqualShares | internal/api/dashboard.go:61-95 | all users of a blob are charged the same, others nothing, a sole user all of it |
| BlobShares.BlobTotalIsFraction | internal/api/dashboard.go:61-95 | one blob's shares over some repositories are its size times the fraction of its users among them |
| BlobShares.ExactConservation | internal/api/dashboard.go:61-95 | exact shares never exceed the bytes referenced, and equal them if and only if nothing is shared with a repository off the list |
| BlobShares.TruncationLoss | internal/api/dashboard.go:61-95 | truncation costs less than one byte per repository |
| BlobShares.SharesNeverExceedBlobs | internal/api/dashboard.go:42-95 | over any repositories the shown shares never exceed the blobs they reference |
| BlobShares.SharesCoverBlobs | internal/api/dashboard.go:42-95 | over all repositories the shortfall is less than a byte per repository |
| Timestamps.DigitsOrder | internal/audit/audit.go:34-46 | fixed-width decimals order like their numbers |
| Timestamps.LayoutOrder | internal/audit/audit.go:34-46 | formatted fields compare as text like the fields in order |
| Timestamps.FieldOrderIsTimeOrder | internal/audit/audit.go:34-46 | calendar fields compare in order like instants, leap years included |
| Timestamps.TextOrderIsTimeOrder | internal/audit/audit.go:34-46 | for years 0 to 9999 text order of stored timestamps is time order, both directions |
| Timestamps.YearStartExactly | internal/audit/audit.go:34-46 | days before a year in closed form: the Gregorian leap rule |
| Timestamps.MonthStartExactly | internal/audit/audit.go:34-46 | days before a month, the leap day counted from March on |
| Timestamps.ReadsBack | internal/audit/audit.go:34-46 | a formatted timestamp reads back by the layout to the same seven fields, to the nanosecond |
| AuditPages.PageLimit | internal/api/cursor.go:55-68 | a limit from 1 to 200 is used as given, anything else is 50 |
| AuditPages.FiltersInColumns | internal/api/admin_audit.go:102-134 | a row matches if and only if each filter given equals its column and its time lies within the bounds, both inclusive |
| AuditPages.SelectIsExact | internal/api/admin_audit.go:94-160 | a query returns exactly the matching rows past the cursor, strictly in (time, id) descending order |
| AuditPages.ListAudit | internal/api/admin_audit.go:156-223 | the first limit rows, and a cursor exactly when there are more |
| AuditPages.PageIsFull | internal/api/admin_audit.go:210-217 | a page holds the first rows up to limit and names its own last row as cursor exactly when there are more |
| AuditPages.FirstPageInColumns | internal/api/admin_audit.go:94-223 | the first page: matching rows only, newest first, and a matching row is left off only if the page is full of rows before it |
| AuditPages.NextPageContinues | internal/api/admin_audit.go:136-140 | following a cursor leaves exactly the rows after the page |
| AuditPages.NewerRowsDoNotMatter | internal/api/admin_audit.go:136-140 | rows added before the cursor do not change what is after it |
| AuditPages.WalkReturnsEverything | internal/api/admin_audit.go:136-223 | a walk returns what one unlimited query at its start would have, even if the log grows behind the cursor meanwhile |
| AuditPages.WalkIsAWalk | internal/api/admin_audit.go:136-223 | following cursors over a fixed log is such a walk and ends |
| AuditPages.WalkLength | internal/api/admin_audit.go:210-217 | it takes at most one page per limit rows, and one more |
| AuditPages.FullWalk | internal/api/admin_audit.go:94-223 | a full walk lists every matching row exactly once, newest first |
| AuditPages.ListingIsChronological | internal/api/admin_audit.go:156 | with timestamps as the logger writes them the listing is reverse chronological |
| ScanPrune.AggregateIndexScan | internal/api/repo_content.go:701-780 | the children's aggregate: in flight beats done beats failed, counts summed over finished children, none exactly without rows |
| ScanPrune.AggregateExactly | internal/api/repo_content.go:701-780 | no aggregate exactly without rows; in flight if one row is; failed if all are; done if one is and none is in flight |
| ScanPrune.DoneSumAdds | internal/api/repo_content.go:737-756 | the counts of two lists of children add up |
| ScanPrune.DoneSumOfOne | internal/api/repo_content.go:737-756 | a finished child adds its critical, high, medium and low counts, any other nothing |
| ScanPrune.ChildScansExactly | internal/api/repo_content.go:712-725 | the rows are the latest scans of the listed children that have one, each child once |
| ScanPrune.LatestScanExactly | internal/api/repo_content.go:285-293 | the latest scan is the highest id among the scans of that repository, kind and artifact, none exactly if there is no such scan |
| ScanPrune.SeverityIsWorstFinding | internal/api/repo_content.go:64-98 | a finished scan is listed under the worst bucket that has a finding |
| ScanPrune.UnfinishedSeverity | internal/api/repo_content.go:64-98 | a scan in flight, a failed one and none at all are listed as such, whatever their counts |
| ScanPrune.ScanTables.DeleteVulnerabilitiesByScan | internal/metadata/fts.go:396-415 | a scan's findings go, and from the search index exactly the CVEs no other scan reports |
| ScanPrune.ScanTables.Prune | internal/api/scans.go:534-591 | deletes exactly the finished scans that are not the newest finished one of their artifact; the search index stays in step |
| ScanPrune.PrunedExactly | internal/api/scans.go:543-552 | a scan goes if and only if it is done or failed, of the repository, and a newer done or failed scan of the same artifact exists |
| ScanPrune.IndexedExactly | internal/metadata/fts.go:396-415 | the search index holds exactly the CVEs some scan reports |
| ScanPrune.OrphansGo | internal/metadata/fts.go:396-415 | removing orphaned CVEs leaves the CVEs of the remaining scans |
| ScanPrune.PruneKeepsLatest | internal/api/repo_content.go:285-293 | for every artifact the latest scan row is the same before and after a prune |
| ScanPrune.PruneKeepsListedSeverity | internal/api/repo_content.go:64-98 | so is its listed severity |
| ScanPrune.PruneKeepsIndexSeverity | internal/api/repo_content.go:679-780 | so is the severity of every multi-arch index |
| ScanPrune.PruneSparesInFlight | internal/api/scans.go:534-560 | pending and running scans and other repositories survive |
| ScanPrune.PruneTwice | internal/api/scans.go:534-581 | pruning again deletes nothing |
| IntegrityLease.IntegrityCheckJob.Snapshot | internal/api/admin_db_health.go:116-148 | what a GET shows of the lease; can-run-now is the rate limit alone |
| IntegrityLease.IntegrityCheckJob.Request | internal/api/admin_db_health.go:499-553 | when a request is accepted, refused as running or refused as too early, and the lease afterwards; the clock is read twice |
| IntegrityLease.PostMatchesGet | internal/api/admin_db_health.go:116-148 | an idle POST is accepted exactly when a GET at the same moment says it can run, and otherwise exactly from the moment the GET names |
| IntegrityLease.IntegrityCheckJob.Finish | internal/api/admin_db_health.go:610-638 | a check that ends, by return or panic, frees the lease and stamps the time |
| IntegrityLease.RetryAfterIsExact | internal/api/admin_db_health.go:464-474 | waiting the announced seconds clears the limit and no smaller whole number does; 0 is announced exactly when the window closed between the two clock readings |
| IntegrityLease.SingleFlight | internal/api/admin_db_health.go:499-553 | in every interleaving at most one check is in flight, and the lease is running exactly when one is |
| IntegrityLease.RemembersLastFinish | internal/api/admin_db_health.go:610-638 | the lease holds a finish time no earlier than any finish so far |
| IntegrityLease.StartsAreAnHourApart | internal/api/admin_db_health.go:499-553 | every recorded start is at least an hour after every earlier finish |
| Bootstrap.ParseAPIKey | internal/auth/apikey.go:88-97 | parses exactly the tokens the pattern matches; the kind is the token's letter, the prefix the first eight characters of the suffix |
| Bootstrap.GeneratedKeyParses | internal/auth/apikey.go:56-84 | every token of the generator's form parses to its kind and the first eight characters of its suffix |
| Bootstrap.ParsedKeyIsGenerated | internal/auth/apikey.go:27-31 | and only those parse |
| Bootstrap.NamesExactly | internal/auth/validate.go:10-32 | which names are logins; project names are the logins in lower case that are not reserved |
| Bootstrap.Validate | internal/app/bootstrap.go:397-509 | accepts a file if and only if it is valid: references resolve, names are distinct and well formed, tokens match their owner |
| Bootstrap.ValidateUsers | internal/app/bootstrap.go:413-429 | the same for users, collecting every login |
| Bootstrap.ValidateProjects | internal/app/bootstrap.go:431-449 | the same for projects and their members, collecting every name |
| Bootstrap.ValidateRepos | internal/app/bootstrap.go:451-475 | the same for repositories, no triple twice |
| Bootstrap.ValidateKeys | internal/app/bootstrap.go:477-506 | the same for API keys |
| BootstrapIngest.IngestUsers | internal/app/bootstrap.go:173-189 | inserts exactly the users' rows, the super-admin first, and gives each login the id of its row; succeeds if and only if the database takes every one |
| BootstrapIngest.IngestProject | internal/app/bootstrap.go:192-219 | one project and its members, in order, under the id of its row |
| BootstrapIngest.IngestProjects | internal/app/bootstrap.go:191-219 | exactly the projects, each followed by its members; succeeds if and only if the database takes every row, unless a member is unknown |
| BootstrapIngest.IngestRepos | internal/app/bootstrap.go:221-243 | exactly one row per repository under its project's id; fails with the insert, the search index or the hook |
| BootstrapIngest.IngestKeys | internal/app/bootstrap.go:245-282 | exactly one row per key with its owner's id in the column of its kind |
| BootstrapIngest.ValidFileResolves | internal/app/bootstrap.go:168-282 | in a validated file every member, project, owner and token lookup of the transaction succeeds |
| BootstrapIngest.Ingest | internal/app/bootstrap.go:168-302 | for a validated file the transaction succeeds if and only if the database takes every row and every hook runs; then it has inserted exactly the rows of the file |
| BootstrapIngest.ApplyBootstrap | internal/app/bootstrap.go:130-302 | skipped exactly on a used database, refused exactly for an invalid file, seeded exactly if moreover every row is taken and the commit succeeds; all rows are stored or none |
| BootstrapIngest.RowsSayTheFile | internal/app/bootstrap.go:173-282 | the rows, one by one, in the file's own terms: users with the flag on the super-admin only, projects, memberships, repositories with their severity or none, keys with owner column and prefix |
| BootstrapIngest.RowsAreCounted | internal/app/bootstrap.go:168-302 | there are as many as the report counts, and the two settings |
| BootstrapSchema.AcceptedBySchema | internal/metadata/migrations/001_initial.up.sql:18-92 | inserting rows one after the other passes the constraints if and only if each meets its checks and no two clash |
| BootstrapSchema.ProjectsClash | internal/metadata/migrations/001_initial.up.sql:54-59 | the rows of the projects clash if and only if a project lists a member twice |
| BootstrapSchema.ReposDoNotClash | internal/metadata/migrations/041_repos_type_npm_maven.up.sql:8-45 | the repositories of a validated file meet type and severity checks and never clash |
| BootstrapSchema.KeysClash | internal/metadata/migrations/028_api_keys_live_name_unique.up.sql:16-22 | keys clash if and only if two share a token, or owner and name |
| BootstrapSchema.SchemaAcceptsExactly | internal/app/bootstrap.go:397-509 | on an empty database the rows of a validated file pass the schema if and only if no project lists a member twice, no token is used twice and no owner has two keys of one name |
| BootstrapSchema.ValidationMissesRepeats | internal/app/bootstrap.go:431-449 | a file that lists a member twice does pass validation |

## Left out

- DriftProtocol.EveryRunIsSafe: holds for orderly runs, from states in which only APT rows share files; the source has no lock that makes runs orderly, and `DriftRaces` shows what happens without. Repository renames and hand deletion of artifacts are not modelled.
- DriftProtocol.PublishKeeps: a publication is one step of the protocol; what holds between its file swap and its row is `DriftRaces.PublishWindowExactly`.
- DriftProtocol.StepKeepsBytes: a file's bytes are represented by their digest.
- DriftUndo.UndoRestoresEverything: assumes every move succeeded and nobody else wrote in between; entries of failed moves are covered by the protocol only.
- Records.RestoreRoundTrip: strings are taken to pass through JSON unchanged, which holds for valid UTF-8; out-of-range float conversion is that of amd64; row ids and `uploaded_at` are not columns of the model.
- SharedFiles.RPMRunStrandsNothing: takes canonical file names as given; rows written by hand with another name are not covered.
- DriftEngine.SortBySample: the sort itself is an insertion sort, not Go's; only a sorted rearrangement is claimed, ties in any order.
- DriftStore.Volume.RestoreDrift: loading and parsing the sidecar, the search index refresh and the metadata flag are folded into `txFails`; audit events, actor labels and error texts are not modelled.
- DriftStore.Database.Insert: the four tables share one id space.
- AttemptLimiter.AttemptLimiter.Acquire: tokens are exact, not float64; `net.SplitHostPort` and lower-casing are parameters; trimming knows Latin-1 blanks only; a permit of a nil limiter is one that frees no slot.
- RotatingLog.Writer.Rotate: failing to remove a stale file or to move `.1` back is not modelled, nor are partial writes and Close.
- UniqueKeys.FilterHasUniqueKeys: works on the decoder's tokens; the rest of the mirror filter validation (field shapes, globs, re-encoding) is not modelled.
- BlobShares.SharesNeverExceedBlobs: shares are exact rationals, not SQLite REALs; manifest bodies are given as the digests they name.
- AuditPages.ListAudit: base64 of cursors, facets and the legacy timestamp shapes are not modelled; the query is a function of the log.
- ScanPrune.ScanTables.Prune: a failing statement rolls the transaction back and is not modelled.
- IntegrityLease.StartsAreAnHourApart: assumes a monotonic clock; the cached last status and the audit trail are not modelled.
- Bootstrap.Validate: stops at the same entry as the source but names it more coarsely than the JSON pointer.
- BootstrapIngest.ApplyBootstrap: file mode, JSON parsing and password hashing are left out, a token stands for its SHA-256; descriptions and flags of rows are not stored; ids come from a given sequence.
- BootstrapSchema.SchemaAcceptsExactly: takes the tables to be empty and ids to differ within a table, and leaves NOT NULL and foreign keys out.
- HTTP routing, SQL text, cryptography, configuration, the web interface and the protocol servers are left out.
- Garbage collection of orphan files and the other restore kinds of the trash are left out.
- The docker, git, raw and S3 stores are left out.
