# Schema migrations of the fn SQL datastore, in Dafny

This project models the migration core of the fn SQL datastore
(`api/datastore/sql/migrations/migrations.go`) and proves properties of the model.
The core does four things:

- It keeps a package-level registry of goose migrations. `sortAndConnectMigrations` sorts the
  registry in place by version and links each record to its neighbours through `Previous` and
  `Next`.
- `checkOldMigrationTableVersionIfExists` reads the `(version, dirty)` row of the legacy
  `schema_migrations` table. `checkOldMigration` uses that row to decide which migrations are
  still outstanding.
- `ApplyMigrations` creates the four baseline tables. It then reads the goose version, asks the
  legacy bridge for the outstanding list, and runs `Up` on each outstanding migration, but only
  when the goose version is below the legacy version.
- `DownAll` reverses migrations one at a time, starting from the recorded version, until no
  migration matches the recorded version or that version is 1 or below.

The files:

- `records.dfy` (module `Records`): the migration record and the in-place sort and linking
  of the registry array. It also holds the exact-match lookup `Current`.
- `legacy.dfy` (module `Legacy`): the legacy row reader and the reconciliation of `checkOldMigration`.
- `engine.dfy` (module `Engine`): the `Database` class, an oracle over a recorded goose version
  that also logs every request. It holds the loops of both entry points as methods, and the
  `Registry` class owning the package-level array. Each entry point has a reference run
  (`ApplyRun`, `DownRun`), and each method is proved equal to its reference run.
- `properties.dfy` (module `Properties`): what the reference runs guarantee. This covers gating,
  order, first-error stop, halting, and the descending order of reversals.

Behaviour of the database and goose is given by an `Env` value:

- which bootstrap statements fail;
- which error, if any, a goose version read returns, for each recorded version;
- what the legacy table holds;
- which `Up` and `Down` calls fail;
- the version a successful `Down` leaves recorded.

Each `Database` method appends its request to `trace`, so the contracts can state order and
"nothing after the first failure".

Points where the code does less than its own text suggests, which the model follows:

- The legacy reader discards the error of `Scan` and never assigns `err`, so the `sql.ErrNoRows`
  branch and the error branch after it (migrations.go:68-71) are dead. The reader never fails,
  and an unreadable or empty legacy table reads as version 0, not dirty.
- With no legacy row, `checkOldMigration` returns -1 as the legacy version on the path marked
  `// full upgrade` (migrations.go:138-139). For a goose version of -1 or more the gate
  `gooseCurrent < migrateCurrent` then never opens, so that full list is never applied
  (`Properties.NoLegacyRowRunsNothing`).
- The legacy split `migrationsSorted[current:]` is by position, not by version. The two agree
  when the registry holds exactly the versions 1..n (`Legacy.PositionSplitIsVersionSplit`) and
  differ when there are gaps (`Legacy.PositionSplitWithGaps`).
- `DownAll` stops at version 1 without reversing it, and it does not look at a dirty flag.
- No error carries the version of the failing migration, and there is no cancellation check
  between migrations.

## Model

| member | source | states |
|---|---|---|
| Records.SortByVersion | api/datastore/sql/migrations/migrations.go:78 | the array ends in ascending version order and holds the same multiset of records |
| Records.ConnectMigrations | api/datastore/sql/migrations/migrations.go:82-89 | the array becomes `Linked` of its old contents: each `Previous` is the predecessor's version (-1 for the first), each `Next` but the last is the successor's version |
| Records.LinkedIsDoublyLinked | api/datastore/sql/migrations/migrations.go:82-89 | linking keeps every version and every other field, links neighbours both ways, sets the first `Previous` to -1 and leaves the last `Next` as it was |
| Records.DoublyLinkedIsLinked | api/datastore/sql/migrations/migrations.go:82-89 | conversely, any sequence with the same records, linked both ways and with the last `Next` untouched, is exactly the linking result |
| Records.LinkedIdempotent | api/datastore/sql/migrations/migrations.go:82-89 | linking an already linked sequence changes nothing |
| Records.Linked | api/datastore/sql/migrations/migrations.go:82-89 | reference definition of what the linking loop produces; characterised by `LinkedIsDoublyLinked` and `DoublyLinkedIsLinked` |
| Records.SortAndConnectMigrations | api/datastore/sql/migrations/migrations.go:77-92 | in place: the array becomes the linking of a version-sorted permutation of its old contents, and it is sorted and doubly linked |
| Records.SortedPermutationUnique | api/datastore/sql/migrations/migrations.go:78 | with distinct versions the sorted arrangement is unique, so the result does not depend on the order the sort chose |
| Records.PermutationKeepsDistinct | api/datastore/sql/migrations/migrations.go:78 | a permutation of records with distinct versions still has distinct versions |
| Records.SortAndConnectIdempotent | api/datastore/sql/migrations/migrations.go:77-91 | with distinct versions, sorting and linking its own output gives the same sequence again |
| Records.IndexOf | api/datastore/sql/migrations/migrations.go:104 | the result is the first position holding the version, or none when no record holds it |
| Records.Current | api/datastore/sql/migrations/migrations.go:104 | the scan of the registry returns exactly `IndexOf` of the version |
| Legacy.Scan | api/datastore/sql/migrations/migrations.go:67 | on a row the targets receive the row's version and dirty flag and no error; an empty table gives `ErrNoRows`; a failed query gives its own error; on failure the targets stay 0 and false |
| Legacy.ReadLegacyVersion | api/datastore/sql/migrations/migrations.go:61-74 | the reader never returns an error; a row is passed through; an absent, unreadable or empty table reads as version 0, not dirty |
| Legacy.ReconcileLegacy | api/datastore/sql/migrations/migrations.go:122-140 | a read error is surfaced unchanged; a dirty row exactly when corrupted; a positive version beyond the registry exactly when the slice panics; a positive version `v` gives `(v, sorted[v:])`; otherwise `(-1, full list)` |
| Legacy.ReconcileDropsPrefix | api/datastore/sql/migrations/migrations.go:134-136 | a positive legacy version `v` drops exactly the first `v` records and keeps the rest, in order |
| Legacy.ReconcileNeverFailsOnRead | api/datastore/sql/migrations/migrations.go:125-139 | on what the reader returns, the check never fails on the read; a missing, unreadable or empty table means `(-1, full list)`; a dirty row means the fatal stop |
| Legacy.PositionSplitIsVersionSplit | api/datastore/sql/migrations/migrations.go:134-136 | on versions 1..n, the records dropped are exactly those at or below `v` and those kept exactly those above it |
| Legacy.PositionSplitWithGaps | api/datastore/sql/migrations/migrations.go:134-136 | with versions 1, 5, 10 and legacy version 2, only version 10 is left outstanding |
| Engine.FirstFailing | api/datastore/sql/migrations/migrations.go:146-151 | the position of the first key in the failure map: every key before it succeeds, and it fails unless it is the end |
| Engine.Database.ExecContext | api/datastore/sql/migrations/migrations.go:147 | logs the statement; fails exactly when the environment says so |
| Engine.Database.GetDBVersion | api/datastore/sql/migrations/migrations.go:155 | logs a version read; returns the recorded version and the environment's read error at that version |
| Engine.Database.QueryLegacy | api/datastore/sql/migrations/migrations.go:65-66 | logs the legacy query; returns the legacy table |
| Engine.Database.Up | api/datastore/sql/migrations/migrations.go:175 | logs the forward action; on success records the migration's version, on failure leaves the version unchanged |
| Engine.Database.Down | api/datastore/sql/migrations/migrations.go:115 | logs the reversal; on success records `afterDown` of the version, on failure leaves it unchanged |
| Engine.RunUpsStopsAtFirstFailure | api/datastore/sql/migrations/migrations.go:174-179 | the forward loop asks for the migrations in list order up to and including the first failing one, returns its error, and records the last successful version |
| Engine.Bootstrap | api/datastore/sql/migrations/migrations.go:146-151 | the statements are issued in order up to the first failure, which is returned; on success all four are issued |
| Engine.RunForward | api/datastore/sql/migrations/migrations.go:174-179 | the `Up` loop's outcome, requests and final version are those of the reference run `RunUps` |
| Engine.RunUps | api/datastore/sql/migrations/migrations.go:174-179 | reference run of the `Up` loop: each migration in list order, stopping at the first failure; characterised by `RunUpsStopsAtFirstFailure` |
| Engine.ReachesLegacyCheck | api/datastore/sql/migrations/migrations.go:146-161 | every baseline statement succeeds and the version read at the recorded version gives no error or `ErrNoNextVersion`; characterised by `ApplyBootstrapFailure` and `ApplyVersionError` |
| Engine.ApplyRun | api/datastore/sql/migrations/migrations.go:142-185 | reference run of `ApplyMigrations`: bootstrap, version read, legacy check, gate and forward loop; its properties are the `Properties.Apply*` lemmas |
| Engine.DownPass | api/datastore/sql/migrations/migrations.go:99-117 | one pass: a read error at the recorded version stops with that error after the read; a lookup miss or a version at or below 1 stops with success after the read; a failing reversal of a held version above 1 stops with its error and the version kept; it continues exactly when none of these holds, after reversing the recorded version, from `afterDown` of it |
| Engine.DownRun | api/datastore/sql/migrations/migrations.go:98-118 | reference run of `DownAll`'s loop: passes of `DownPass` until one stops, well-founded on the recorded version under `DownLowers`; its properties are `DownRunDescends`, `DownRunOutcome` and `DownAllStopsAtOne` |
| Engine.ReversePass | api/datastore/sql/migrations/migrations.go:99-117 | one pass of the loop does what `DownPass` says: the same requests, the same stop or continue, the same outcome and version |
| Engine.ReverseLoop | api/datastore/sql/migrations/migrations.go:98-118 | under the termination assumption, the open loop ends, with the outcome, requests and final version of `DownRun` |
| Engine.Registry.CheckOldMigration | api/datastore/sql/migrations/migrations.go:122-140 | sorts and links the registry in place, issues one legacy query, and returns `ReconcileLegacy` of the linked registry and the reading |
| Engine.Registry.ApplyMigrations | api/datastore/sql/migrations/migrations.go:142-185 | outcome, requests and final version are those of `ApplyRun` on the sorted, linked registry; the registry is sorted only once the legacy check is reached, otherwise it is unchanged |
| Engine.Registry.DownAll | api/datastore/sql/migrations/migrations.go:94-120 | sorts and links the registry, then behaves as `DownRun` on it |
| Properties.ApplyBootstrapFailure | api/datastore/sql/migrations/migrations.go:146-151 | the first failing statement's error is returned; only the statements up to it were issued; no version read and no forward action |
| Properties.ApplyBootstrapsFirst | api/datastore/sql/migrations/migrations.go:146-155 | when the bootstrap succeeds, all four statements come first and the version read comes next |
| Properties.ApplyVersionError | api/datastore/sql/migrations/migrations.go:155-161 | a version read error other than `ErrNoNextVersion` is returned right after the read, and it is the only way to miss the legacy check once the bootstrap succeeds |
| Properties.ApplyDirtyHalts | api/datastore/sql/migrations/migrations.go:129-131 | a dirty legacy row halts after the legacy query, with no forward action and the version unchanged |
| Properties.ApplyNeverFailsAtLegacyCheck | api/datastore/sql/migrations/migrations.go:166-179 | once the check is reached the run starts with the preamble, and an error can only be that of a failing `Up`: the last request is that migration's forward action, and its error is the one returned |
| Properties.RunUpsErrorIsLast | api/datastore/sql/migrations/migrations.go:174-179 | a forward loop that ends in an error ends with the forward action of a failing migration, and returns that migration's error |
| Properties.ApplyGateClosed | api/datastore/sql/migrations/migrations.go:172 | when the goose version is not below the legacy version nothing runs and the run succeeds |
| Properties.NoLegacyRowRunsNothing | api/datastore/sql/migrations/migrations.go:134-139 | without a legacy row, a goose version of -1 or more means no forward action ever runs and the version is unchanged |
| Properties.ApplyForwardPhase | api/datastore/sql/migrations/migrations.go:172-179 | once the gate opens, the outstanding migrations run in list order up to the first failure, whose error is returned; the recorded version is the last one applied |
| Properties.ApplyForwardAscending | api/datastore/sql/migrations/migrations.go:172-179 | on a sorted registry the forward actions come in ascending version order |
| Properties.ApplyForwardShape | api/datastore/sql/migrations/migrations.go:172-179 | once the gate opens, the requests are the preamble followed by those of the forward loop over the outstanding list |
| Properties.RunUpsAscending | api/datastore/sql/migrations/migrations.go:174-179 | the forward loop over a version-sorted list asks only for forward actions, in ascending version order |
| Properties.OutstandingIsSuffix | api/datastore/sql/migrations/migrations.go:134-139 | the outstanding list is always a suffix of the registry |
| Properties.ApplyLegacyBridge | api/datastore/sql/migrations/migrations.go:166-181 | the legacy check is reached, versions 1..n, clean legacy version `v` with 0 < `v` <= n, goose version below `v`, and no failing `Up` above `v`: the run succeeds, exactly `v+1`..`n` are applied, in order, and the recorded version ends at `n` when `v` < `n`, and stays unchanged when `v` = `n` |
| Properties.DownRunDescends | api/datastore/sql/migrations/migrations.go:98-118 | reversal runs only read versions and reverse; every reversed version is held by the registry, is above 1 and at most the start, and reversals strictly descend, so version 1 is never reversed |
| Properties.DownRunOutcome | api/datastore/sql/migrations/migrations.go:98-118 | a read error at the starting version is returned at once; otherwise the run ends with success after reading a version the registry does not hold or one at or below 1, or with the error of the read on a later pass (last request a read), or with the error of the failing reversal of a held version above 1, which stays recorded (last request that reversal) |
| Properties.MissStopsOk | api/datastore/sql/migrations/migrations.go:104-113 | after a successful read, a version the registry does not hold, or one at or below 1, ends the run at once with success and nothing reversed |
| Properties.DownFailureReturned | api/datastore/sql/migrations/migrations.go:115-117 | a failing reversal of a held version above 1 ends the run at once with that error, the version left recorded |
| Properties.FirstReversalIsStart | api/datastore/sql/migrations/migrations.go:99-117 | every run starts with a version read, and its first reversal, if any, is of the starting version |
| Properties.DownAllLaterReadFails | api/datastore/sql/migrations/migrations.go:98-102 | on versions 1..3 from version 3, a read failing at version 2 after `Down(3)` succeeds is returned, with the requests read, reverse 3, read and version 2 recorded |
| Properties.DownAllStopsAtOne | api/datastore/sql/migrations/migrations.go:98-118 | on versions 1..n without failures, with each reversal lowering the version by one, every version from the start down to 2 is reversed and the run stops at 1 |

## Left out

- The DDL text of the four baseline tables: each statement appears only as its table name.
- goose itself: `SetDialect`, `GetDBVersion`, `Migration.Up`/`Down` and `Migrations.Current` are not shown, so they are oracles over a recorded version.
- `Migrations.Current` is assumed to be an exact-match lookup of the first record holding the version.
- `Down` is assumed to leave `afterDown(v)` recorded. `DownAll` is proved to terminate only when `afterDown(v) < v` for every `v` (`DownLowers`). Without that assumption the Go loop may not end, and the model does not describe it.
- The goose version value returned together with `ErrNoNextVersion` is taken to be the recorded version.
- The result of a goose version read depends only on the recorded version. `ApplyMigrations` reads once, and in `DownAll` the recorded version strictly descends, so every read of a run is separately choosable.
- `database/sql`, `context`, `common.Logger`, `fmt.Printf` and the `log.Debug`/`log.Error` calls are left out: they do not affect control flow. `log.Fatal` is the `Halt` outcome.
- A Go slice-bounds panic is the `Panic` outcome.
- `sort.Sort` appears as an insertion sort. Only its promise, ascending order and a permutation, is relied on.
- The registry records are values, not `*Migration` pointers, so aliasing between the slice and other references is not modelled.
- Versions are unbounded integers, not `int64`.
- The order of records with equal versions is not fixed, as `sort.Sort` is not stable. Idempotence and uniqueness are stated only for distinct versions.
- `Registry.CheckOldMigration`, `Registry.ApplyMigrations`, `Registry.DownAll`, `ReverseLoop` and `ReversePass`: the registry order the sort chose is a ghost out-parameter, so callers see it only in specifications.
