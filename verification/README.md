# Verified models of gin-di

Models, in Dafny 4.11, of the four parts of this Gin application whose correctness is not visible in any
one function, with proofs of what they promise over whole runs:

- **the rate limiter**: token buckets with lazy refill in a bounded map, a sweep that is claimed to be
  lossless, and an eviction pass (`Allowance`, `TokenBucket`, `BoundedStore`, `Levels`, `Admission`,
  `Announcements`, `Lossless`, `Bounds`, `InMemory`);
- **the migrator**: `Run`, `Reset`, `Refresh` and `Fresh` on a transactional database whose every round trip
  may fail (`Schema`, `Migrations`, `MigrationHistory`, `MigratorTheorems`, `Migrator`);
- **the line filter** of the test command: an incremental buffer that must not depend on how its input is cut
  (`Lines`, `LineFilters`);
- **the test reporter**: a state machine over interleaved event streams (`TestReport`, `ReportTheorems`,
  `Reporting`).

Each stateful component is a class whose methods are proved against a function of its state; the theorems are
about those functions, for every run.

`dafny verify dfyconfig.toml` checks everything.

## How to read the models

**Rate limiter.** Instants and durations are integer nanoseconds; instants count from Go's zero time, which is
also what a new store's `prunedAt` holds. Tokens are exact reals where the program has `float64`.
What a limit earns (`Earned`), how long earning takes (`Wait`) and how many whole tokens a level holds (`Whole`) are
defined nanosecond by nanosecond and token by token; the program's formulas, in seconds with a division and a
ceiling, are proved to compute them and are what the class's methods execute. The mutex makes
`Allow` one step, so a run is a sequence of `Call`s in the order they took it. The one choice the program leaves
open, which of several equally stale buckets an eviction pass drops, travels in the call (`evicted`), and
`Legal` says which choices the pass can make. The central lemma is `Levels.CallMovesLevels`: on a non-decreasing
clock a store is, as far as any decision goes, one *level* per key that rises with time and drops by one per
admission; sweeps, lazy refills and the stored `fullAt` vanish. `now` is read before the lock is taken
(`app/http/middlewares/throttle_middleware.go:49`), so the clock's steadiness is a hypothesis (`Clocked`) and not
a fact of the program. The theorems that need none say so. `Limited` says that each key has one positive limit,
which is how the middleware uses the store.

**Migrator.** A database is its tables with the tables their foreign keys reference, and the migrations table as
a map from names to batches (names are `UNIQUE`). A `Fault` counts the round trips that still succeed, so a
command with a fault is that command failing at any chosen begin, statement, read or commit. `Atomically` is a
transaction; `Migrator.Migrator.Pair` shows that begin, two statements, rollback or commit amount to one. The
connection keeps a ghost log of what it commits, and each command's method is proved to append exactly the databases
that `Commits` lists, which is what the theorem on histories speaks of.

**Where the comments claim more than the code does.** The sweep is described as lossless without conditions.
On a clock that may step back it need not be: `SteppingBackChangesADecision` gives three calls. The exact condition is
`ForgettingChangesNoDecisionExactly`: on any clock, evictions included, a run is decided as by a store that never
forgets a bucket if and only if no key is asked for after it was forgotten and before it has earned back its whole
allowance. Going back in time for a key still tracked is therefore harmless, and so is every run on a non-decreasing
clock without evictions (`SweepChangesNoDecision`). A package's tests are reported together, once, exactly when no
result of the package stands between two of its test events (`ReportedOnceExactly`); `LateEventIsReportedTwice` is a
stream of three events in which one does.

## Model

| member | source | states |
|---|---|---|
| Allowance.SecondsToDuration | app/services/throttle/memory.go:246-252 | the shortest non-negative duration that is at least as long as the seconds given |
| Allowance.RefillIsEarned | app/services/throttle/memory.go:124-127 | elapsed seconds times the rate per second is exactly what the elapsed nanoseconds earn |
| Allowance.WaitIsComputed | app/services/throttle/memory.go:137-143 | a shortfall over the rate, rounded up, is the least number of nanoseconds in which the shortfall is earned |
| Allowance.TruncateIsWhole | app/services/throttle/memory.go:142 | dropping the fraction of a level counts its whole tokens |
| Allowance.KeyIsInjective | app/services/throttle/throttle.go:34-36 | with separator-free names, two keys are equal exactly when both name and identity are |
| Allowance.WaitIsLeast | app/services/throttle/memory.go:139-143 | a wait has passed exactly when the limit has earned what was waited for |
| TokenBucket.FullFromFullAt | app/services/throttle/memory.go:143-144 | a bucket holds its whole allowance exactly from the instant stored as `fullAt` |
| TokenBucket.SpendFollowsTheLevel | app/services/throttle/memory.go:131-146 | spending decides by the refilled token count alone, and leaves `now < fullAt <= now + Per` |
| TokenBucket.RefillOnAnyClock | app/services/throttle/memory.go:124-129 | on any clock a refill takes no tokens away, never exceeds the allowance, adds at most what the time earns and keeps the latest instant |
| Bounds.CallOnAnyClock | app/services/throttle/memory.go:118-140 | on any clock, a call on a store that keeps the key's bucket leaves it between nothing and its allowance and removes only the token it spends |
| TokenBucket.ForgettingIsInvisibleExactly | app/services/throttle/memory.go:116-144 | on any clock, a call that finds no bucket where there was one is decided the same if and only if the bucket had earned back its whole allowance by then: one bucket, one call; runs are in Lossless |
| Levels.SweepMovesNoLevel | app/services/throttle/memory.go:177-189 | a sweep, paced or forced, changes no key's level |
| Levels.CallMovesLevels | app/services/throttle/memory.go:94-147 | one call: the caller's risen level decides and is spent from, evicted keys are back at their whole allowance, every other level only rises |
| Admission.AdmitsExactlySinceEviction | app/services/throttle/memory.go:94-147 | evictions included, a request is admitted if and only if, counting it, every window from an admission of the key since its last eviction holds at most Requests + Requests·elapsed/Per |
| Admission.AdmitsExactlyConforming | app/services/throttle/memory.go:118-140 | while its key is not evicted, every earlier admission of the key counts |
| Admission.AdmittedSinceEvictionConforms | app/services/throttle/memory.go:94-147 | what a key is admitted between any two instants since its last eviction never exceeds its allowance and the refill between them |
| Admission.AdmittedTrafficConforms | app/services/throttle/memory.go:118-140 | while the key is not evicted, that holds between any two of its admissions |
| Admission.ConformingTrafficIsNeverRefused | app/services/throttle/memory.go:118-140 | a key whose requests conform has all of them admitted, evicted or not |
| Admission.SegmentBound | app/services/throttle/memory.go:94-147 | with evictions, any segment of any run admits a key at most Requests·(1 + its evictions there) + Requests·duration/Per |
| Announcements.RetryAfterIsTheLeastWait | app/services/throttle/memory.go:133-140 | after a refusal, with nothing of the key admitted in between and however often it polls, a retry is admitted if and only if `RetryAfter` has passed or the key was evicted |
| Announcements.ResetAtIsWhenTheAllowanceIsWhole | app/services/throttle/memory.go:142-144 | with nothing admitted or evicted in between, a later call finds the whole allowance exactly from `ResetAt` on |
| Announcements.RemainingIsWhatIsLeft | app/services/throttle/memory.go:131-142 | of any number of further requests at the same instant exactly `Remaining` are admitted |
| Announcements.HeaderSeconds | app/http/middlewares/throttle_middleware.go:77-82 | the Retry-After header is at least one second, never shorter than the wait and, for a positive wait, less than a second longer |
| Announcements.HonouringTheHeaderIsEnough | app/http/middlewares/throttle_middleware.go:67-82 | a caller that waits as the header says and is admitted nothing meanwhile is admitted |
| Lossless.ForgottenExactly | app/services/throttle/memory.go:94-147 | on any clock, one call on a store that tracks part of what another remembers is decided alike if and only if its key is tracked, new, or has earned back its whole allowance; the store still tracks part of it afterwards |
| Lossless.ForgettingChangesNoDecisionExactly | app/services/throttle/memory.go:164-235 | on any clock, sweeps and evictions included, a run is decided as by a store that never forgets a bucket if and only if every key forgotten returns no earlier than it has earned back its whole allowance |
| Lossless.SweepChangesNoDecision | app/services/throttle/memory.go:177-189 | on a non-decreasing clock and without evictions that condition holds, and the store decides every call as a store that never forgets a bucket |
| Lossless.SteppingBackChangesADecision | app/services/throttle/memory.go:164-189 | three calls, one with an earlier clock, in which the sweep admits what a store that never forgets refuses: an instance in which a key does not return full |
| Lossless.RefusalsLeaveNoTrace | app/services/throttle/memory.go:124-144 | leaving any refused calls out of an eviction-free run evicts nothing either and leaves every other decision the same |
| Lossless.NothingPermitted | app/services/throttle/memory.go:95-110 | a limit that permits nothing refuses with its whole window as the wait and touches nothing; every decision names its limit |
| Lossless.PermittingNothingLeavesNoTrace | app/services/throttle/memory.go:95-110 | a run is as if the calls under such limits had not been made |
| Lossless.DecidedAsAlone | app/services/throttle/memory.go:116-146 | while a key is not evicted, its decisions in any interleaving are those of its own calls on a fresh store of any capacity |
| Lossless.AllowancesNeverShare | app/services/throttle/throttle.go:14-36 | a caller's decisions under one limit are those of a store that sees none of another limit's calls |
| BoundedStore.LowWater | app/services/throttle/memory.go:30 | the largest whole number not above nine tenths of the cap |
| Bounds.CallStaysBounded | app/services/throttle/memory.go:204-235 | on any clock and with any limits the map never exceeds its cap; a pass runs only on a full map the sweeps cannot shrink, and leaves the low-water mark and the new key |
| Bounds.CapIsAsConfigured | app/services/throttle/memory.go:69-84 | over any run the map holds at most the configured number of keys, ten thousand if that is not positive, and a call evicts if and only if its key is new, the map is that full and no bucket in it has replenished |
| Bounds.VictimsAreStalest | app/services/throttle/memory.go:222-234 | every survivor of a pass was seen no earlier than every victim, and is untouched |
| Bounds.EveryBucketIsAccountedFor | app/services/throttle/memory.go:177-235 | over any run, buckets inserted = live + swept + evicted |
| Bounds.PassesAreSpacedByInsertions | app/services/throttle/memory.go:23-30 | from an eviction pass until the map is next full, the pass's own key included, at least a tenth of the cap is inserted |
| Bounds.PassesNeedTheCap | app/services/throttle/memory.go:205-215 | an eviction pass runs only on a full map |
| Bounds.EvictionIsAmortised | app/services/throttle/memory.go:23-30 | over any run, buckets evicted are at most buckets inserted, and entries sorted at most ten times that |
| Bounds.WalksOnlyAfterAMinute | app/services/throttle/memory.go:177-182 | an unforced sweep touches the store if and only if sixty seconds have passed since the last sweep of either kind |
| Bounds.SweepsArePaced | app/services/throttle/memory.go:164-182 | a run makes at most one call more that walks the map on the ordinary path, told by what it changes in the store, than minutes pass between its first call and its last |
| Bounds.WalksRestForAMinute | app/services/throttle/memory.go:177-215 | after a walk of either kind, the one forced at the cap included, no ordinary walk comes within a minute |
| Bounds.TrackedKeysAreRecent | app/services/throttle/memory.go:116-144 | after any call every tracked key was used by a call less than its Per and a minute ago |
| Bounds.LifetimeBound | app/services/throttle/memory.go:118-140 | on any clock, backward steps included, one bucket's lifetime admits at most Requests + Requests·(latest use − creation)/Per |
| InMemory.MemoryStore.constructor | app/services/throttle/memory.go:75-84 | a new store is empty, with the cap given, or ten thousand when that is not positive |
| InMemory.MemoryStore.Len | app/services/throttle/memory.go:157-162 | the number of live buckets |
| InMemory.Refill | app/services/throttle/memory.go:124-129 | the program's refill in seconds is the bucket's refill in nanoseconds, on any clock |
| InMemory.SpendOne | app/services/throttle/memory.go:131-146 | the program's spending and its three roundings give the decision and the bucket of the model |
| InMemory.MemoryStore.Allow | app/services/throttle/memory.go:94-147 | in place, decides and changes the store as one legal step |
| InMemory.MemoryStore.SweepAway | app/services/throttle/memory.go:177-189 | deletes exactly the replenished buckets, unless unforced within the interval |
| InMemory.MemoryStore.MakeRoom | app/services/throttle/memory.go:204-215 | makes room by a forced sweep and, only if that leaves the map at its cap, an eviction pass on the sorted entries |
| InMemory.MemoryStore.Evict | app/services/throttle/memory.go:217-234 | deletes the stalest entries until the low-water mark is reached |
| InMemory.Throttle | app/http/middlewares/throttle_middleware.go:47-87 | one step of the store under the limit's own key; the headers are the decision's numbers, the reset in whole seconds since 1970, and the chain goes on exactly when admitted |
| InMemory.EpochIsNineteenSeventy | app/http/middlewares/throttle_middleware.go:59 | the offset between Go's zero time and the Unix epoch is the seconds of the years 1 to 1969, leap years counted |
| Schema.ExecuteOneMore | database/migrator.go:93-100 | statements of a transaction run in order and stop at the first error |
| Schema.MaxBatch | database/migrator.go:190-209 | the greatest recorded batch, zero when there is none |
| MigratorTheorems.ApplyEffect | database/migrator.go:87-111 | a migration is applied, table and row together, exactly when the server holds out, every reference exists and its name is new; otherwise nothing changes |
| MigratorTheorems.RevertEffect | database/migrator.go:294-318 | a migration is reverted, table and row together, exactly when the server holds out, the migrations table exists and no other table references the migration's; otherwise nothing changes |
| MigratorTheorems.RunRecordsAll | database/migrator.go:39-70 | from any database, a Run that succeeds has recorded the whole list and added no other name |
| MigratorTheorems.ResetUndoesExactlyTheRecorded | database/migrator.go:252-287 | from any database, a Reset that succeeds has dropped exactly the tables of the recorded migrations of the list and forgotten exactly those |
| MigrationHistory.UpIsNotBlocked | database/migrator.go:93-100 | after any recorded prefix the next Up finds its references and its name is new |
| MigrationHistory.DownIsNotBlocked | database/migrator.go:294-318 | the last recorded migration's Down drops a table nothing references any more |
| MigrationHistory.CascadeInAnyOrder | database/migrator.go:320-354 | dropping tables with CASCADE never fails and its effect does not depend on the order |
| MigratorTheorems.EveryHistoryRecordsAPrefix | database/migrator.go:39-318 | over every history of commands and failures from an empty database, after the history and in every database committed on the way, exactly a prefix of the list is recorded, its tables are the only ones and every foreign key resolves |
| MigratorTheorems.WhatIsLeftWasCommitted | database/migrator.go:87-145 | whatever fails, a command leaves the database of its last commit, or the one it found |
| MigratorTheorems.NoCommandIsBlocked | database/migrator.go:39-318 | after every history a command succeeds if and only if the server holds out for the command's own round trips: for Run five and four more for every pending migration, for Reset four and four more for every recorded one, for Refresh both, for Fresh the drops and a whole Run |
| MigratorTheorems.RunSucceedsExactlyInOrder | database/migrator.go:32-38 | on an empty database Run succeeds if and only if the list is registered in an order in which every reference comes earlier and the server holds out for five trips and four more for every migration |
| MigratorTheorems.RegisteredInOrder | database/kernel.go:41-48 | the two registered migrations are in such an order, and the reverse is not |
| MigratorTheorems.RunSharesOneNewBatch | database/migrator.go:39-70 | wherever a Run stops, the rows it added share one batch above every earlier one and earlier rows are untouched |
| MigratorTheorems.RunWithNothingPending | database/migrator.go:56-59 | a Run with nothing pending changes nothing, wherever it stops |
| MigratorTheorems.RunResumes | database/migrator.go:39-111 | from any database, a Run stopped anywhere and then a Run that succeeds leave the tables and names one uninterrupted Run leaves |
| MigratorTheorems.FreshForgetsThePast | database/migrator.go:220-226 | from any database and any drop order, Fresh is exactly Run on an empty database once the server has held out for the drops; if it has not, nothing changed |
| MigratorTheorems.FreshStartsOver | database/migrator.go:212-226 | a Fresh that succeeds ends in what Run makes of an empty database, all in batch 1 |
| MigratorTheorems.FreshSucceedsExactlyInOrder | database/migrator.go:212-226 | Fresh rebuilds any database, however broken, if and only if the list is registered in order and the server holds out |
| MigratorTheorems.ResetUndoesRun | database/migrator.go:252-287 | from any recorded prefix, a Reset succeeds if and only if the server holds out for its trips, and then leaves exactly the tables and rows that are not the list's |
| MigratorTheorems.RefreshSucceedsExactly | database/migrator.go:236-242 | from any recorded prefix on any host, a Refresh succeeds if and only if the server holds out for its trips |
| MigratorTheorems.RefreshReapplies | database/migrator.go:236-242 | from any recorded prefix, a Refresh that succeeds ends with the whole list applied once in one batch, rows of unregistered migrations untouched |
| Migrator.Migrator.EnsureRepository | database/migrator.go:122-145 | creates the migrations table if absent, in one transaction |
| Migrator.Migrator.AppliedMigrations | database/migrator.go:153-179 | reads the recorded names |
| Migrator.Migrator.NextBatch | database/migrator.go:190-210 | one above the greatest recorded batch |
| Migrator.Migrator.Apply | database/migrator.go:87-111 | Up and its row take effect together or not at all, whichever trip fails |
| Migrator.Migrator.Revert | database/migrator.go:294-318 | Down and the removal of its row take effect together or not at all |
| Migrator.Migrator.Run | database/migrator.go:39-77 | applies every unrecorded migration in registration order under one new batch, each in its own transaction, and stops at the first failure with the earlier ones committed |
| Migrator.Migrator.Reset | database/migrator.go:252-287 | reverts every recorded migration, last registered first, each in its own transaction, and stops at the first failure with the earlier ones committed |
| Migrator.Migrator.Refresh | database/migrator.go:236-242 | Reset and, only if it succeeds, Run |
| Migrator.Migrator.DropAllTables | database/migrator.go:328-361 | drops every listed table in one transaction, or none |
| Migrator.Migrator.Fresh | database/migrator.go:220-226 | drop everything and, only if that succeeds, Run |
| Lines.LinesCoverTheInput | app/console/test/line_filter.go:36-43 | lines and rest are the input, cut after every newline and nowhere else |
| Lines.LinesAreUnique | app/console/test/line_filter.go:36-43 | there is no other way to cut it |
| Lines.ChunksDoNotMatter | app/console/test/line_filter.go:33-81 | however an input is cut into writes, the output after the flush is its lines that are not dropped, and `Dropped` counts the others |
| Lines.EveryByteIsAccountedFor | app/console/test/line_filter.go:33-57 | between calls the bytes written are those forwarded, dropped and pending, and no newline is pending |
| Lines.WhatIsNotDroppedIsUntouched | app/console/test/line_filter.go:33-81 | an input none of whose lines is to be dropped, or any input when there is no condition, comes out as it went in |
| LineFilters.LineFilter.Write | app/console/test/line_filter.go:33-57 | forwards or drops every complete line; when the sink fails, the lines before are done with and the failed line has left the buffer |
| LineFilters.LineFilter.Flush | app/console/test/line_filter.go:64-81 | forwards or drops the unterminated rest |
| LineFilters.NoticeExactly | app/console/test/line_filter.go:92-94 | a line is recognised if and only if it is something, the marker and something |
| LineFilters.ExactlyTheNoticesAreDropped | app/console/test/line_filter.go:92-94 | with this condition, however the output is cut into writes, exactly the lines without the marker come out, in order, and `Dropped` counts the others |
| LineFilters.OtherOutputIsUntouched | app/console/test/line_filter.go:92-94 | output none of whose lines contains the marker comes out unchanged |
| LineFilters.NoticeIsDroppedHoweverCut | app/console/test/line_filter.go:92-94 | a "[no test files]" line is dropped wherever the marker stands and however the line was cut |
| ReportTheorems.EveryTestIsReportedOnce | app/console/test/reporter.go:88-232 | for every interleaving, each package with tests is printed once, its ended tests in first-seen order with their last status; totals count distinct tests; nothing is held back; none failed exactly when no test ended failing |
| ReportTheorems.LinesAreTheEndedTests | app/console/test/reporter.go:138-169 | printed lines are exactly the tests that ended, each once |
| ReportTheorems.StatusIsTheLast | app/console/test/reporter.go:112-119 | a test has a status if and only if some pass, fail or skip event of it carries it and no later event of the test is one of these |
| ReportTheorems.LinesAreInStartingOrder | app/console/test/reporter.go:52-61 | in a section, a test stands above another only if its first event came before the other's |
| ReportTheorems.EmptyPackagesAreSkips | app/console/test/reporter.go:125-130 | the packages without tests are the skipped package records, each counted once |
| ReportTheorems.InterleavingDoesNotMatter | app/console/test/reporter.go:63-71 | two streams with the same events per package, split or not, print the same sections for each package in the same order and reach the same four totals |
| ReportTheorems.ReportedOnceExactly | app/console/test/reporter.go:138-169 | every package is reported in one section if and only if none of its results stands between two of its test events |
| ReportTheorems.LateEventIsReportedTwice | app/console/test/reporter.go:88-169 | a test, its package's result and the test again: two sections and two passed for the one test that ended |
| Reporting.Reporter.Handle | app/console/test/reporter.go:88-120 | in place, notes a test event or passes a package record on |
| Reporting.Reporter.HandlePackage | app/console/test/reporter.go:125-133 | counts a package without tests or flushes a finished one |
| Reporting.Reporter.FlushPackage | app/console/test/reporter.go:138-169 | prints one section, counts its lines by status and forgets the package |
| Reporting.Reporter.Summary | app/console/test/reporter.go:192-232 | flushes every package still held, in any order, and tells whether none failed |

## Left out

- float64 rounding, `time.Duration` overflow and the saturation of `time.Time.Sub` in the limiter: tokens and times are exact.
- Concurrency inside `Allow`: the mutex makes it one step, so runs are sequences.
- Buckets are values in the map, where the program keeps references to them: no reference leaves the store, so no aliasing is lost.
- SweepChangesNoDecision: assumes a non-decreasing clock, one positive limit per key and no eviction; ForgettingChangesNoDecisionExactly is what holds without the clock and the evictions.
- AdmitsExactlySinceEviction: assumes a non-decreasing clock; LifetimeBound is what holds without.
- TrackedKeysAreRecent: assumes a clock that starts no earlier than Go's zero time, from which a new store counts.
- A limit that changes between two calls of one key: modelled by `Step` and covered by the bounds on size and eviction, but not by the theorems on admissions.
- `sort.Slice`: only its contract is used; the order of equally stale entries is left open by `Legal`.
- Header text, the response body, and the rest of the middleware chain; headers are numbers.
- Gin, routing, CORS, JWT, password hashing, seeding, configuration and logging.
- SQL text, columns, row data other than migrations rows, and the `id` column of the migrations table.
- Migrations other than one `CREATE TABLE IF NOT EXISTS` undone by one `DROP TABLE IF EXISTS`, the form both registered ones have.
- A migrations table of another shape than the migrator creates: only Fresh, which drops it, is meant to cope with one.
- Failures of a rollback: the connection is lost with the transaction, so nothing is committed either way.
- The order the catalogue lists tables in: the program asks for it sorted, the theorems hold for every order.
- Error values and messages: a method reports success or failure.
- LineFilter.Write: a sink that fails is taken to have accepted none of the failing line's bytes.
- The reporter's text, colours, durations and captured output, `HumanizeTestName`, and the failure details, whose package label is keyed by test name alone.
