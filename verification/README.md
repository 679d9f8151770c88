# Mediaman's transactional and concurrent protocols, in Dafny

Mediaman tidies a Plex library: it schedules items for deletion, lets people keep them, deletes what is due, pokes
Radarr and Sonarr, mails the people waiting, and guards its own login. Underneath lie a dozen small protocols over SQLite
rows and in-process dictionaries. This project models them and proves how they behave over whole runs: under crashes,
interleavings and the clock.

How the source's notions appear here:

- A table is a map or a sequence of records, and a statement is a function of the table, applied by meaning.
- A transaction is working state over committed state. A crash keeps what is committed.
- Concurrent protocols are step machines (`Can`, `Do`, `Runs`): one step is one committed transaction, one critical
  section under the lock, or one effect outside. Every theorem about a run is about every sequence of enabled steps.
- Code that updates state in place is a class whose methods are proved to come to the machine's steps or to a function of
  the old state; what the outside world answers is passed in, and only the clock moves as it likes.
- Time is an integer (microseconds, in the SQL-backed parts; `Timestamps` justifies comparing it where the code compares
  text) or a real (seconds, in the in-process parts), read from a clock that does not run backwards.

| file | what it holds |
|---|---|
| `ActionTable`, `DeletionMachine` | the `scheduled_actions` statements and the machine of passes, crashes, recoveries, keeps and outside changes |
| `RecoveryLemmas`, `DeletionSafety`, `DeletionCompleteness`, `KeepDelete` | what every run of that machine keeps |
| `DeletionExecutor` | the executor, statement by statement, as runs of the machine |
| `ScanLibrary` | the scan loop with its batched guards against the per-item loop |
| `OrphanGuard`, `OrphanPruner` | the two-look orphan guard as a machine, and `remove_orphans` |
| `Lockout` | the login lockout |
| `SlidingWindow`, `ActionLimiter`, `BucketLimiter` | the two rate limiters against ideal logs |
| `JobLease` | the heartbeat lease of job runs |
| `Notifications`, `NotificationPass` | claim, send, mark or release among workers, and one whole pass |
| `Backoff`, `Throttle`, `ThrottleMachine`, `ThrottleExclusion`, `ThrottleContinuity`, `SearchTrigger` | the search throttle: the delay curve, the two critical sections, attempts interleaved from any table or carrying on from saved rows, and the sequential sweep with restarts |
| `Timestamps` | the printer and the two parsers of ISO 8601 text, with RFC 3339 section 5.1's ordering claim |
| `Base64`, `Tokens` | the signed-token codec over RFC 4648 section 5 |

Where the code does less than is said of it, or needs a condition:

- `KeepDelete`: neither `mark_delete_status` nor the pending fetch checks for a keep. Exclusion comes from the two deadline
  guards alone and holds exactly when the keep's clock reading, the deadline and the fetch do not cross; both directions
  are proved. An admin's keep asks for neither guard: it protects a row exactly if no pass has fetched it yet
  (`AdminKeepExcludesDelete`, `AdminKeptYetDeleted`).
- `DeletionSafety`, `DeletionCompleteness`: a deleted row means "absent and inside the roots", not "removed by mediaman";
  completeness holds action by action, and needs this action's row left alone while its deletion is under way, so the
  sweep of pending deletions, which checks for no running scan, must not take it. `SweepLosesExactly` says which paths a
  sweep between crash and recovery loses and `SweptInTheGap` gives a run.
- `ScanLibrary`: a season with an empty show key makes the batched set and the single query disagree; `EmptyKeyDiffers`
  says exactly when that shows. No writer stores such a key (`web/routes/kept_show.py:87` rejects it before the only insert,
  `web/repository/kept.py:313`), so it takes a row put in by hand.
- `Lockout`: a streak that fell at a single instant survives a retry exactly at the expiry of its day-long lock.
- `SearchTrigger`: the comment on the second pass says the inner gate would skip everything the early exit skips. It would
  not skip the very item that fired last, once that is due (`PrefilterHoldsBack`, `PrefilterHoldsBackADueSeries`).
  Abandoning an item inside a sweep clears its service's window, and then another item goes ahead exactly if its own
  backoff lets it (`ClearReopensWindow`, `TwoItemsInOneWindow`). `WindowKept` therefore says what must lie between two
  items: a clear of the service or a restart.
- `ThrottleExclusion`: exclusion needs every attempt to settle within its item's own least wait of its clock reading, 108 s
  for a first search; at exactly that wait it fails (`LateSettlingMiscounts`).
- `SearchTrigger`: stored times keep whole microseconds, so after a restart the pace is kept less that rounding, `slack`;
  with whole-microsecond readings the slack is 0.
- `Notifications`: an email counts as sent when one call of `mailgun.send` got it out, in however many copies: the client
  retries its POST after a time-out and then tries the other region. A call that gets it out and raises all the same is
  caught, the row is released, and the next pass mails it again (`UnansweredSendMailsTwice`).
- `Notifications`: the documentation of the pass lists a reset of stranded rows as its first step; the code does that only
  at startup, and `UntimelyReconcileMailsTwice` shows that it must not happen while a slow pass is alive.
- `Lockout`: the clock is read before the wait for the write lock, so failures may commit out of order. Counts and the
  bound on a continuous lock do not mind; a lock can move nearer, but only past a lag of 45 minutes
  (`LockShortenedExactly`).
- `BucketLimiter`: the bounded dictionary can forget calls still inside the window, but only those of a bucket that 10,000
  others were checked after; a window later its answers are exact again.
- `Timestamps`: the strict parser is documented to refuse a trailing Z and oversized fractions; under Python 3.12 it reads
  both, and an offset that leads out of the calendar raises rather than being refused (`StrictReads`).
- `OrphanGuard`: `previous_count * 0.10` is a floating-point product, passed in as `tenth`. No theorem depends on how it
  rounds (it may exceed a tenth, as 70 * 0.10 does).
- `BucketLimiter`: text that is no address is its own bucket key and may coincide with a printed network; keys are text
  for that reason.

## Model

| member | source | states |
|---|---|---|
| `RecoveryLemmas.RecoverEffect` | src/mediaman/scanner/deletions.py:77-125 | Recovery touches exactly the rows marked deleting: one whose file is absent and inside the roots gets one more deleted row and is dropped, any other goes back to pending, and every other action keeps its row and its audit count |
| `RecoveryLemmas.RecoverField` | src/mediaman/scanner/deletions.py:77-125 | Field by field: a row marked deleting whose item's path lies inside the roots and is absent is dropped and its item's bytes are credited in one deleted row, any other marked row goes back to pending, the rest stay |
| `RecoveryLemmas.RecoverIdempotent` | src/mediaman/scanner/deletions.py:52-125 | After recovery no row is marked deleting, and recovering twice equals recovering once |
| `DeletionSafety.AuditRun` | src/mediaman/scanner/deletions.py:52-240 | Over every interleaving of passes, crashes at any point, recoveries, keeps, sweeps and outside changes no action ever has two deleted rows, and one still in the table or in hand has none |
| `DeletionSafety.DeletedRowMeaning` | src/mediaman/scanner/deletions.py:77-125 | The only step that adds a deleted row drops the action in the same transaction, with the path inside the roots and either cleared for this action or seen absent |
| `DeletionSafety.TallyRun` | src/mediaman/scanner/deletions.py:357-382 | At every point of every pass its two counters equal the number and the bytes of the deleted rows committed since the loop began |
| `DeletionSafety.DueListsExactly` | src/mediaman/scanner/repository/scheduled_actions.py:132-144 | The listing of due rows holds, once each and in id order, exactly the pending scheduled deletions with an item and a deadline not after now, whatever their other columns say |
| `DeletionSafety.FetchTakesExactly` | src/mediaman/scanner/repository/scheduled_actions.py:132-144 | A fetch takes exactly those rows into a pass with roots |
| `DeletionSafety.NoneIsPassedOver` | src/mediaman/scanner/deletions.py:357-427 | Whatever else goes on, a pass that has gone through its rows has attempted the removal of each row that was ripe at its fetch, or that row is gone |
| `DeletionSafety.ParkedExactly` | src/mediaman/scanner/deletions.py:384-395 | A row in its turn is parked exactly if its path is empty or white space |
| `DeletionSafety.RecoveryRespectsIndex` | src/mediaman/scanner/deletions.py:112-125 | No single UPDATE of the recovery loop can violate the partial unique index |
| `DeletionSafety.UniqueRun` | src/mediaman/db/schema_definition.py:247 | In every reachable state an item has at most one unused scheduled_deletion row whatever its delete_status, which is more than the index asks |
| `KeepDelete.KeepExcludesDelete` | src/mediaman/services/scheduled_actions/_mutations.py:70-129 | Over every run an action both kept and cleared from disk had a keep whose clock reading was at most the deadline and which ran at or after a fetch that found the deadline passed; with a clock read in its own step, only at the deadline instant itself |
| `KeepDelete.KeepTakesExactly` | src/mediaman/services/scheduled_actions/_mutations.py:70-129 | A keep takes effect exactly on a pending, unused deletion whose deadline its reading has not passed; the row then is no deletion, carries the new time, can never be kept so again, and every other row is as it was |
| `KeepDelete.DeletingMeansScheduled` | src/mediaman/scanner/repository/scheduled_actions.py:147-152 | In every reachable state a row marked deleting is a scheduled_deletion, unless a keep crossed its fetch at the deadline or an admin kept the row after its fetch |
| `KeepDelete.AdminKeepExcludesDelete` | src/mediaman/web/repository/library_api.py:96-104 | Over every run a row an admin kept and a pass nevertheless cleared from disk had been fetched by the time of the keep: before that the keep protects it for good, though it asks neither for the deadline nor for the delete status |
| `KeepDelete.AdminKeptYetDeleted` | src/mediaman/web/repository/library_api.py:96-104 | And after that it does not: for every deadline, fetch and kind of keep there is a run in which a kept row is marked deleting and its file goes |
| `KeepDelete.FetchedIsPastKeeping` | src/mediaman/scanner/repository/scheduled_actions.py:132-144 | Once a row was fetched for deletion, a keep with a fresh clock changes nothing, except at the deadline instant |
| `KeepDelete.KeptYetDeleted` | src/mediaman/services/scheduled_actions/_mutations.py:70-101 | For every reading, deadline, fetch and keep time that cross that way there is a run in which the keep returns 1 and the file is deleted: the exclusion is exact |
| `KeepDelete.ExclusiveRun` | src/mediaman/scanner/repository/scheduled_actions.py:132-152 | The per-action invariant behind the exclusion (who was fetched when, who was kept, who may be marked) survives every step of every run |
| `DeletionCompleteness.CompleteRun` | src/mediaman/scanner/deletions.py:131-240 | Action by action: in every run that does this action no harm once its deletion is under way (its row is not swept, pruned, released or snoozed, its file not moved, put outside the roots or re-created once cleared; anything may happen to others), every path cleared for it is at every moment either credited or still waiting on a row recovery will find |
| `DeletionCompleteness.CrashThenRecovery` | src/mediaman/scanner/deletions.py:52-125 | Stop the process after any such run and recover: an action for which a path was cleared has exactly one deleted row and is not left marked deleting |
| `DeletionCompleteness.DeletedRowDropsAction` | src/mediaman/scanner/deletions.py:220-240 | The transaction that writes the one deleted row takes the action out of the table it was still in, its path inside the roots and cleared for it or absent |
| `DeletionCompleteness.SweepLosesExactly` | src/mediaman/scanner/repository/scheduled_actions.py:198-225 | After any such run that has stopped, a sweep of the pending deletions before recovery loses the credit of a cleared path, for good and whatever runs later, exactly if its action is still marked deleting and unused; otherwise the recovery that follows leaves it exactly one deleted row |
| `DeletionCompleteness.SweptInTheGap` | src/mediaman/scanner/repository/scheduled_actions.py:198-229 | And it comes to that: a run in which the sweep between crash and recovery leaves a cleared path without any deleted row |
| `DeletionExecutor.Executor.RecoverStuckDeletions` | src/mediaman/scanner/deletions.py:52-125 | The row loop leaves disk and working state equal to the recovery function of what was on disk |
| `DeletionExecutor.Executor.DeleteFileOnDisk` | src/mediaman/scanner/deletions.py:131-217 | However the removal ends, its commits are steps of the machine, and it reports success exactly when the row is left to be credited |
| `DeletionExecutor.Executor.CommitDeletion` | src/mediaman/scanner/deletions.py:220-240 | Audit row and drop reach the disk together |
| `DeletionExecutor.Executor.DeleteOne` | src/mediaman/scanner/deletions.py:384-427 | One due row from blank-path parking to the last commit is a run of the machine that takes it off the queue and counts it exactly when it was deleted, and leaves the row dropped, pending or deleting and the log as the removal ended |
| `DeletionExecutor.PassSettlesEach` | src/mediaman/scanner/deletions.py:357-427 | What a live pass makes of every action: a ripe one, re-entry or not, is dropped and credited once if its path lies inside the roots and goes, dropped uncredited if its path is blank, pending again if refused, and else stays marked; one that is not ripe stays as it was |
| `DeletionExecutor.Executor.ExecuteLive` | src/mediaman/scanner/deletions.py:344-382 | A live pass is one uninterrupted run of the machine, the count and bytes it returns are those of the deleted rows committed after its recovery, and it leaves the tables with each due row through its turn and, if asked, the lapsed snoozes swept |
| `DeletionExecutor.Executor.Execute` | src/mediaman/scanner/deletions.py:317-342 | A dry run adds exactly one preview row to the log per due row, in order, touches no file and no action and reports nothing; a live one is as above |
| `ScanLibrary.ScanEngine.FetchProtectedMediaIds` | src/mediaman/scanner/repository/_protection.py:164-196 | The query in chunks of 500 returns exactly the listed ids that some row keeps for ever or until a time not before now |
| `ScanLibrary.ScanEngine.FetchAlreadyScheduledMediaIds` | src/mediaman/scanner/repository/_protection.py:199-225 | The same for ids with an unused scheduled deletion, whatever its deadline and status |
| `ScanLibrary.ScanEngine.FetchKeptShowKeys` | src/mediaman/scanner/repository/_protection.py:228-265 | The same for show keys kept for ever or until a time after now |
| `ScanLibrary.ScanEngine.ScanOne` | src/mediaman/scanner/_scan_library.py:155-229 | One item under the loaded sets comes out as the reference step that asks the protection and schedule queries afresh, faults before, in and after the guards, raising verdicts and dry runs included, and afterwards the sets still answer for every id as those queries would, a duplicate of the item just scheduled among them |
| `ScanLibrary.ScanEngine.ScanItems` | src/mediaman/scanner/_scan_library.py:95-152 | The batched loop, with its sets growing as it schedules, is the batch fold over the list, duplicates included |
| `ScanLibrary.ScanEngine.ScanMovieLibrary` | src/mediaman/scanner/_scan_library.py:232-268 | A movie scan with three batched queries equals the loop that asks per item: decisions, rows, summary, seen keys |
| `ScanLibrary.ScanEngine.ScanTvLibrary` | src/mediaman/scanner/_scan_library.py:271-334 | A TV scan removes exactly the kept shows whose snooze has run out and otherwise equals the per-item loop, unless the list holds a season with an empty show key under a live keep |
| `ScanLibrary.BatchIsPerItem` | src/mediaman/scanner/_scan_library.py:80-152 | Any set of kept shows that answers as the table did at the start makes the batched loop and the per-item loop, which sweeps as it asks, agree on decisions, rows and summary |
| `ScanLibrary.SweepingLate` | src/mediaman/scanner/repository/_protection.py:110-161 | The per-item loop and the batched one end with the same kept table once either is swept |
| `ScanLibrary.AskingSweepsExactly` | src/mediaman/scanner/repository/_protection.py:110-161 | Asking whether a show is kept removes exactly the snoozes that have run out, and only if there is a key and the answer is no |
| `ScanLibrary.EmptyKeyDiffers` | src/mediaman/scanner/repository/_protection.py:79-107 | For an empty show key, which only a row put in by hand can hold, set and query disagree, and the item comes out differently exactly when it gets as far as that question and is not declined anyway |
| `ScanLibrary.SummaryBalances` | src/mediaman/scanner/_scan_library.py:95-152 | scanned grows by the length of the list and stays scheduled + skipped + errors |
| `ScanLibrary.ScanSchedules` | src/mediaman/scanner/phases/upsert.py:74-151 | What a whole live scan amounts to: old rows stay, an item ends up scheduled exactly if it was or is wanted and unprotected, new rows are due one grace period on, flagged re-entry exactly when a consumed snooze exists, and never a second unused deletion of an item |
| `ScanLibrary.ShieldedGetsNoRow` | src/mediaman/scanner/_scan_library.py:155-193 | No scan, dry or live, gives an item a row that some row of before keeps for ever, keeps until a time not before now, or has waiting for deletion already |
| `ScanLibrary.WantedGetsOneRow` | src/mediaman/scanner/_scan_library.py:196-229 | A live scan gives an item that nothing of the sort holds, and of which a readable, eligible copy of no kept show came, exactly one row: due one grace period on, flagged re-entry exactly if a used snooze of it is on record |
| `ScanLibrary.KeepHoldsScansOff` | src/mediaman/services/scheduled_actions/_mutations.py:70-129 | After a keep over a link no scan at a clock up to the time it names, or ever for a keep for ever, schedules the item |
| `ScanLibrary.AdminKeepShields` | src/mediaman/web/repository/library_api.py:96-113 | An admin's keep, of a row or of an item without one, holds scans off exactly up to the time it names, or for ever, and changes no token, status or item |
| `ScanLibrary.LapsedKeepReenters` | src/mediaman/scanner/repository/_protection.py:268-285 | After that time a wanted copy brings the item back as a re-entry |
| `ScanLibrary.ScheduleRefusedExactly` | src/mediaman/scanner/phases/upsert.py:74-151 | The insert is refused exactly without the item or with a pending unused deletion of it, and otherwise adds this one row |
| `ScanLibrary.CleanupKeepsReentry` | src/mediaman/scanner/repository/_protection.py:268-285 | Snooze clean-up removes exactly the unused snoozes that have run out: no consumed snooze that re-entry looks for, no running protection and no schedule |
| `Lockout.LoginLockout.IsLockedOut` | src/mediaman/web/auth/login_lockout.py:130-172 | Locked exactly while locked_until lies in the future, and never for an empty name |
| `Lockout.LoginLockout.RecordFailure` | src/mediaman/web/auth/login_lockout.py:327-382 | UPSERT, decay, backfill and lock in one transaction come to one function of the old row and the clock; other accounts are untouched |
| `Lockout.CountIsFailuresSinceFirst` | src/mediaman/web/auth/login_lockout.py:175-259 | In every reachable state failure_count is the number of failures since first_failure_at, itself the time of one of them |
| `Lockout.EveryRowEarned` | src/mediaman/web/auth/login_lockout.py:175-348 | Locked implies a count of five, the lock was taken by a failure of this streak for the window of the present count, and a streak over a day old survives only under a lock |
| `Lockout.CountIsStreak` | src/mediaman/web/auth/login_lockout.py:175-259 | Even when failures commit in another order than they read the clock, the count is that of all failures from the one that set first_failure_at on, and one of the failures since the last clear took the lock |
| `Lockout.LockShortenedExactly` | src/mediaman/web/auth/login_lockout.py:262-324 | In every such state a failure moves a running lock nearer exactly if it is the tenth and lags more than 45 minutes behind the failure that took the lock, or the fifteenth and lags more than 1380 |
| `Lockout.LockNeverShortened` | src/mediaman/web/auth/login_lockout.py:262-324 | So a failure that lags at most 45 minutes behind those already counted never moves a running lock nearer |
| `Lockout.DayLockEndsStreak` | src/mediaman/web/auth/login_lockout.py:206-238 | After a day-long lock has run out the next failure restarts the streak at one, unlocked, exactly unless it lands at the expiry instant of a streak that fell at one instant |
| `Lockout.ContinuousLockBounded` | src/mediaman/web/auth/login_lockout.py:68-80 | From any unlocked row, failures of any number and timing, in whatever order they commit, that leave and find a lock each time keep it for less than 15 + 60 + 1440 minutes from the first, to the microsecond at most two less |
| `Lockout.ContinuousLockReached` | src/mediaman/web/auth/login_lockout.py:262-324 | A reachable row and eleven failures that meet that bound exactly |
| `ActionLimiter.ActionRateLimiter.Check` | src/mediaman/services/rate_limit/limiters.py:98-134 | Accepts exactly if fewer than the cap of all calls ever accepted of the actor lie less than the window back and, with a daily cap, fewer than that lie 86,400 s back or less, whatever was filtered, popped, dropped or pruned |
| `ActionLimiter.ActionRateLimiter.PopExpired` | src/mediaman/services/rate_limit/limiters.py:104-107 | The popleft loop leaves exactly the calls of the last day |
| `ActionLimiter.ActionRateLimiter.PruneDaily` | src/mediaman/services/rate_limit/limiters.py:136-146 | Pruning everyone loses no call that a window could still ask for, and leaves no empty log and nothing more than a day old |
| `SlidingWindow.CoveringStoreAnswers` | src/mediaman/services/rate_limit/limiters.py:110-113 | A store that has lost nothing but expired entries answers every later window question as the whole log, and filtering keeps it so |
| `SlidingWindow.EveryWindowCapped` | src/mediaman/services/rate_limit/limiters.py:62-81 | If each call found room when it came, no stretch of less than the window, or of the whole day, laid anywhere over the log holds more calls than the cap |
| `BucketLimiter.RateLimiter.Check` | src/mediaman/services/rate_limit/limiters.py:192-211 | At most 10,000 buckets; accepts exactly if fewer than the cap of all its accepted calls lie less than the window back, unless 10,000 distinct other buckets were checked between two checks of this one, or since its last, and the earlier check is still inside the window; also for caps of zero or less |
| `BucketLimiter.RateLimiter.EvictOldest` | src/mediaman/services/rate_limit/limiters.py:227-232 | What is evicted is the least recently checked bucket, and 10,000 distinct others were checked since |
| `BucketLimiter.RateLimiter.MaybePrune` | src/mediaman/services/rate_limit/limiters.py:213-225 | Every 256 calls exactly the buckets go that hold nothing less than the window old; order and answers are kept |
| `BucketLimiter.OldestIsCrowdedOut` | src/mediaman/services/rate_limit/limiters.py:202-206 | A full dictionary meeting a new key proves that 10,000 distinct buckets were checked after its oldest entry |
| `BucketLimiter.StaleDropped` | src/mediaman/services/rate_limit/limiters.py:218-225 | Dropping a bucket whose newest call left the window loses nothing that a later window could ask for |
| `BucketLimiter.WindowCapped` | src/mediaman/services/rate_limit/limiters.py:192-211 | The window ending with an accepted call of a bucket not crowded out at the time holds at most the cap, that call included |
| `BucketLimiter.BucketsStayPaced` | src/mediaman/services/rate_limit/limiters.py:192-211 | A bucket that was never crowded out has at most the cap of accepted calls in any stretch of less than the window |
| `JobLease.JobTable.IsJobRunning` | src/mediaman/db/connection.py:211-224 | In every reachable state the SELECT over the rows answers for the history: true exactly if the last stamp some run ever wrote did not finish it and is less than 300 s old |
| `JobLease.FinishedIsLastStamp` | src/mediaman/db/connection.py:266-300 | In every legal history exactly the started runs have rows, and a row is finished exactly if its run's last stamp was the finishing one: no renewal revives it |
| `JobLease.JobTable.StartJobRun` | src/mediaman/db/connection.py:227-263 | Inserts a fresh row exactly when no live run exists, and otherwise changes nothing |
| `JobLease.JobTable.FinishJobRun` | src/mediaman/db/connection.py:266-280 | Stamps finish and heartbeat of that one row |
| `JobLease.JobTable.HeartbeatJobRun` | src/mediaman/db/connection.py:283-300 | Renews an unfinished row and leaves a finished one as it is |
| `JobLease.RowIsLastStamp` | src/mediaman/db/connection.py:227-300 | In every legal history a row holds the last stamp its own run wrote |
| `JobLease.LeaseExcludes` | src/mediaman/bootstrap/scan_jobs.py:74-110 | While a run that keeps its own renewals under 300 s is working, no interleaving of starters, renewals and crashes of others contains a start |
| `JobLease.NoTwoRuns` | src/mediaman/db/connection.py:176-190 | If every run renews so, no two are ever working at once |
| `JobLease.LapseLetsTwoRun` | src/mediaman/db/connection.py:180-187 | A gap of exactly 300 s already admits a second run |
| `JobLease.CrashBlocksExactly` | src/mediaman/db/connection.py:211-224 | A crashed run alone blocks a start exactly until 300 s after its last stamp |
| `OrphanGuard.LookDecides` | src/mediaman/scanner/phases/delete.py:77-132 | In every reachable state a suspicious look opens exactly the scanned libraries whose last look was a deferring one, all of it committed, commits at once and leaves other markers alone; a healthy look opens all scanned |
| `OrphanGuard.LookJudges` | src/mediaman/scanner/phases/delete.py:42-51 | A look is suspicious exactly if under 5 items came back of at least 5, or of more than 50 fewer than the tenth |
| `OrphanGuard.RowsGoOnlyPruned` | src/mediaman/scanner/phases/delete.py:135-196 | A committed row vanishes only by pruning: unseen, in an open library, and after a suspicious look only if that library has two suspicious committed looks in a row |
| `OrphanGuard.NoDanglingAction` | src/mediaman/scanner/phases/delete.py:182-191 | Over any scans with crashes anywhere no committed state has an action pointing at a missing item |
| `OrphanGuard.InvRun` | src/mediaman/scanner/phases/delete.py:77-196 | A library is pending exactly after an odd run of suspicious looks, and what is not yet committed are healthy looks only |
| `OrphanPruner.Pruner.FetchIdsInLibraries` | src/mediaman/scanner/repository/media_items.py:157-172 | In chunks of 500 the ids of the libraries, each once |
| `OrphanPruner.Pruner.DeleteActionsForMediaItems` | src/mediaman/scanner/repository/scheduled_actions.py:160-180 | In chunks of 500, exactly the actions pointing at the ids go |
| `OrphanPruner.Pruner.DeleteMediaItems` | src/mediaman/scanner/repository/media_items.py:175-196 | In chunks of 500, exactly the ids go |
| `OrphanPruner.Pruner.ResolvePruneLibs` | src/mediaman/scanner/phases/delete.py:77-132 | Judges as one step of the guard: marker arithmetic, immediate commit only when suspicious |
| `OrphanPruner.Pruner.RemoveOrphans` | src/mediaman/scanner/phases/delete.py:135-196 | The whole call counted out: which fetches are suspicious, which libraries that opens, that exactly their unseen items and the actions on them go, what it returns, how the markers move, and what is committed; and that this is one look and one prune of the guard |
| `Notifications.NoRowHeldTwice` | src/mediaman/services/downloads/_notification_claims.py:56-89 | Over any interleaving of passes no row is held by two, and a held row is at 2 |
| `Notifications.EmailsSent` | src/mediaman/services/downloads/notifications.py:424-503 | The sends that got a row's email out are those after which it was not marked (the worker died, the mark failed, or the send raised all the same) plus one exactly if it is marked or about to be: conservation over every run |
| `Notifications.AtMostOneEmail` | src/mediaman/services/downloads/notifications.py:424-503 | Without a death, with the marks accepted and with no send that gets out and still raises, no row gets two emails, and with no pass under way no row is at 2 |
| `Notifications.UnansweredSendMailsTwice` | src/mediaman/services/mail/mailgun.py:76-119 | In every reachable state in which a pass holds an unmailed row of a known service, a send that gets out and still raises is followed by a second email from the next pass, the row marked only then |
| `Notifications.DoneMeansSent` | src/mediaman/services/downloads/notifications.py:398-416 | A row reaches 1 only after a send or for an unknown service, and no email ever goes out for an unknown service |
| `Notifications.ClaimedMeansStranded` | src/mediaman/services/downloads/_notification_claims.py:121-168 | With no pass under way a row is at 2 exactly if a dead pass stranded it |
| `Notifications.ReconcileFrees` | src/mediaman/services/downloads/_notification_claims.py:171-206 | After a crash reconcile queues exactly the claims more than an hour old, or with no stamp, and leaves every other row alone |
| `Notifications.UntimelyReconcileMailsTwice` | src/mediaman/services/downloads/_notification_claims.py:171-206 | In every reachable state in which a slow pass still holds an unmailed claim older than the grace, reconcile lets this pass and the next both mail the row: it belongs at startup |
| `Notifications.InvRun` | src/mediaman/services/downloads/notifications.py:364-503 | Exactly the rows at 2 are held by one worker or stranded, and only held rows of a known service are mailed |
| `NotificationPass.NotificationQueue.ClaimPending` | src/mediaman/services/downloads/_notification_claims.py:56-89 | Claims every queued row at once and returns exactly those, each once |
| `NotificationPass.NotificationQueue.RecordArrFailure` | src/mediaman/services/downloads/_notification_backoff.py:55-66 | Counts one failure more for that row alone and sets its next try by the new count |
| `NotificationPass.NotificationQueue.RecordPollAttempt` | src/mediaman/services/downloads/_notification_backoff.py:69-83 | Sets the short interval and leaves the failure count alone |
| `NotificationPass.NotificationQueue.PartitionRunnable` | src/mediaman/services/downloads/notifications.py:174-197 | Returns exactly the rows not backed off and releases the others in one step |
| `NotificationPass.NotificationQueue.CheckArrAvailability` | src/mediaman/services/downloads/notifications.py:364-421 | Unknown services are drained, unreachable ones released, otherwise nothing changes and readiness is reported |
| `NotificationPass.NotificationQueue.ProcessOne` | src/mediaman/services/downloads/notifications.py:424-503 | One row is left done or queued and out of the pass's hands, mailed at most once, counted as lost exactly if it was mailed and not marked, a send that gets out and raises included; its retry record counts one more failure, waits a minute, or is gone, by what happened; no other row or record is touched |
| `NotificationPass.NotificationQueue.CheckDownloadNotifications` | src/mediaman/services/downloads/notifications.py:506-590 | The whole pass from before to after: every queued row settled or back in the queue, the rest of the table untouched, one email exactly for the ready rows whose retry time has come and whose send gets out, one lost exactly for those of them not marked after, and every retry record as that makes it |
| `Backoff.DelayBounds` | src/mediaman/core/backoff.py:90-123 | Whatever the count and seed the delay lies in the jitter band around the capped curve, never under (1 - jitter) * base nor over the ceiling |
| `Backoff.RaisesExactly` | src/mediaman/core/backoff.py:90-123 | It raises exactly without the seed its jitter needs, or beyond 1,024 attempts |
| `Backoff.DoublesThenCaps` | src/mediaman/core/backoff.py:115-118 | Each further attempt doubles the base delay until it meets the ceiling |
| `Throttle.SearchesSpreadOut` | src/mediaman/services/arr/_throttle_state.py:78-90 | Paced successes: the n-th comes at least 108 * (2^(n-1) - 1) s after the first, n up to 11 |
| `Throttle.SearchesStayApart` | src/mediaman/services/arr/_throttle_state.py:78-90 | Beyond the eleventh they stay 77,760 s apart |
| `Throttle.OneItemPerWindow` | src/mediaman/services/arr/search_trigger.py:287-307 | In any log whose neighbouring successes are spaced, two items searched less than 900 s apart have a clear or a restart between them |
| `ThrottleMachine.TokensRun` | src/mediaman/services/arr/search_trigger.py:277-314 | In every interleaving, clears included, each reservation token belongs to an attempt between phases 1 and 3 on that item; with nothing in flight there is none |
| `ThrottleMachine.FailureRestores` | src/mediaman/services/arr/search_trigger.py:157-204 | Whatever runs between its reservation and its failure, an attempt puts back exactly the timestamp it found or, if overtaken, changes nothing |
| `ThrottleExclusion.OneCallPerItem` | src/mediaman/services/arr/search_trigger.py:277-358 | From any throttle table, if every attempt settles within its item's own least wait of its clock reading (108 s, doubling with the searches counted up to 77,760 s), at most one per item is in its call |
| `ThrottleContinuity.CountAndLastExact` | src/mediaman/services/arr/search_trigger.py:180-204 | A process that finds an honest row: whatever interleaving, count shown is the count on the row plus its own successes, with no call under way the time shown is the last success, whether or not its saves went through, and the row it leaves is honest again |
| `ThrottleContinuity.PaceContinues` | src/mediaman/services/arr/search_trigger.py:284-314 | And each success waits at least the gap that all successes before it ask for, those of earlier processes included |
| `ThrottleExclusion.TriggersPaced` | src/mediaman/services/arr/search_trigger.py:292-313 | From any throttle table successes keep the backoff pace though attempts race |
| `ThrottleExclusion.ReserveGate` | src/mediaman/services/arr/search_trigger.py:284-314 | While an item is in its call, every other attempt for it is turned away, leaving memory as it was or warmed from the row it read; one that opens leaves the last success its gap |
| `ThrottleExclusion.LateSettlingMiscounts` | src/mediaman/services/arr/search_trigger.py:180-204 | And a call of exactly that wait is already too long: for every count up to 1,024 and every time there is a run with two calls of the item, both successful and counted once |
| `SearchTrigger.SearchTrigger.LoadThrottle` | src/mediaman/services/arr/_throttle_persistence.py:44-86 | Zeros when unreadable, which loses something only if memory has forgotten the item too |
| `SearchTrigger.SearchTrigger.ReserveSlot` | src/mediaman/services/arr/search_trigger.py:277-314 | Cap, warm-up, gate and reservation, statement by statement, come to the reservation function |
| `SearchTrigger.SearchTrigger.CommitOrRollback` | src/mediaman/services/arr/search_trigger.py:157-204 | The settling branches come to the settling function |
| `SearchTrigger.SearchTrigger.MaybeTrigger` | src/mediaman/services/arr/search_trigger.py:213-358 | The whole effect of an attempt under given answers: nothing unless the item is due (not upcoming, no file matched, a key and an id, at least 300 s old, a movie or a series), otherwise exactly the two critical sections, the success and the saved row included; and exactly when the caller sees an exception |
| `SearchTrigger.SearchTrigger.GetSearchInfo` | src/mediaman/services/arr/_throttle_persistence.py:142-215 | Count and last success are exact while nothing was lost and the row can be read, from memory or from the row |
| `SearchTrigger.SearchTrigger.ClearThrottle` | src/mediaman/services/arr/_throttle_persistence.py:276-304 | Drops exactly the item's memory and row and the named service's stamp, and loses track only when the row cannot be deleted |
| `SearchTrigger.ClearForgetsExactly` | src/mediaman/services/arr/_throttle_persistence.py:276-304 | Of memory a clear forgets the item's count and time and the named service's stamp, and nothing else |
| `SearchTrigger.SearchTrigger.Restart` | src/mediaman/services/arr/_throttle_persistence.py:44-115 | A new process keeps every item's pace if all saves succeeded |
| `SearchTrigger.SearchTrigger.TriggerPendingSearches` | src/mediaman/services/arr/search_trigger.py:361-421 | Under given answers of the outside world a sweep is settled: visits to the queued items in order, each leaving memory and table exactly as an attempt does and then as the clearing of an abandoned item does; then, exactly if there is a Sonarr client and the window is over at the second reading, visits to every missing series the queue did not cover; and it stops early exactly at the visit that raises |
| `SearchTrigger.SearchTrigger.TriggerSonarrPartialMissing` | src/mediaman/services/arr/search_trigger.py:424-474 | With a client and Sonarr's window over at its clock reading it visits every uncovered missing series in order until one raises, otherwise it changes nothing; it never fires on the other service |
| `SearchTrigger.SecondPassTakesExactly` | src/mediaman/services/arr/search_trigger.py:429-470 | The second pass makes up exactly the missing series whose id no queued series with an id of its own has |
| `SearchTrigger.SearchTrigger.WindowKept` | src/mediaman/services/arr/search_trigger.py:184-190 | Over everything that ever happened, restarts included and whichever pass it came from, two items searched on one service less than 900 s apart have a clear of that service or a restart between them |
| `SearchTrigger.SearchTrigger.PaceKept` | src/mediaman/services/arr/_throttle_persistence.py:89-115 | Across restarts the n-th success of an item comes at least 108 * (2^(n-1) - 1) s after the first, less the rounding of stored times |
| `SearchTrigger.PrefilterHoldsBack` | src/mediaman/services/arr/search_trigger.py:443-457 | While the early exit holds the second pass back, an attempt would go ahead exactly for the item searched last, if its own backoff lets it: the comment there says none would |
| `SearchTrigger.PrefilterHoldsBackADueSeries` | src/mediaman/services/arr/search_trigger.py:443-457 | And it comes to that for every series and clock: searched once, it is due again 132 s later, and held back until 900 s |
| `SearchTrigger.ClearReopensWindow` | src/mediaman/services/arr/_throttle_persistence.py:295-299 | After clearing any item with its service, every other item of the service goes ahead exactly if its own backoff lets it; before, only with the cap's leave as well |
| `SearchTrigger.TwoItemsInOneWindow` | src/mediaman/services/arr/_throttle_persistence.py:295-299 | So for any two items, clocks and backoff: searched, cleared with its service as abandoning does, and the other searched within the window, which the cap would have refused |
| `Timestamps.TextOrderIsTimeOrder` | src/mediaman/core/time.py:25-31 | Printed instants compare as text exactly as they compare in time, though a zero fraction is left out |
| `Timestamps.EarlierIsLess` | src/mediaman/core/time.py:13-31 | Calendar order is the order of microseconds on the Gregorian time line |
| `Timestamps.CalendarIsGregorian` | src/mediaman/core/time.py:13-31 | The day count is that of the Gregorian calendar in closed form, for every year |
| `Timestamps.MonthsAreGregorian` | src/mediaman/core/time.py:13-31 | And by the table of months, leap day included |
| `Timestamps.MicrosCountedOut` | src/mediaman/core/time.py:13-31 | So an instant is its Gregorian day, hour, minute, second and fraction, counted in microseconds |
| `Timestamps.StrictReadsPrinted` | src/mediaman/core/time.py:34-50 | The strict parser returns the printed instant |
| `Timestamps.StrictReads` | src/mediaman/core/time.py:34-50 | With a fraction of any length and any zone, a trailing Z included, it reads the local time less the offset and overflows exactly outside the years 1 to 9999: its documentation says it refuses the Z and oversized fractions |
| `Timestamps.OnlyStampsAreRead` | src/mediaman/core/time.py:34-50 | Whatever text is read at all is a valid date and time, a fraction or none and a zone or none, written out, and is read as that |
| `Timestamps.ParseIsoUtc` | src/mediaman/core/time.py:53-89 | The parser with its search for the zone suffix is the reading function |
| `Timestamps.LenientReads` | src/mediaman/core/time.py:53-89 | Padded, with UTC left out, a Z or any hours and minutes ahead or behind, and with any number of fraction digits, a stamp reads as its local time cut to the microsecond less its lead over UTC |
| `Timestamps.LenientReadsPrinted` | src/mediaman/core/time.py:53-89 | So the lenient parser returns the printed instant too |
| `Base64.UnpaddedReadBack` | src/mediaman/crypto/tokens.py:296-298 | Encoding, stripping the padding, adding it back and decoding gives the bytes back; the stripped text holds no dot and has ceil(4n/3) characters |
| `Base64.AlphabetIsTheRfcs` | src/mediaman/crypto/tokens.py:296-298 | The encoder writes the URL-safe alphabet of the RFC and the decoder reads it, and the two characters of the other table |
| `Base64.GroupsAreTheBits` | src/mediaman/crypto/tokens.py:296-298 | Each group of an encoding is its bits in order, with zeros behind the last byte |
| `Base64.FourAreThreeBytes` | src/mediaman/crypto/tokens.py:246-249 | Four characters are read as their 24 bits |
| `Base64.ShortGroups` | src/mediaman/crypto/tokens.py:246-249 | A group cut short raises unless padded to four, and then ends the text |
| `Base64.StrayPads` | src/mediaman/crypto/tokens.py:246-249 | Padding that completes nothing is skipped |
| `Base64.OthersAreSkipped` | src/mediaman/crypto/tokens.py:246-249 | So is any other character outside the alphabet, wherever it stands |
| `Base64.DecodeShrinks` | src/mediaman/crypto/tokens.py:246-249 | The lenient decoder never yields more bytes than characters |
| `Tokens.TokenRoundTrip` | src/mediaman/crypto/tokens.py:217-298 | A token validates back to its payload exactly while exp is a finite number not past and if the JSON is at most 3,039 bytes |
| `Tokens.ValidExactly` | src/mediaman/crypto/tokens.py:217-298 | For every token and payload: it validates to that payload exactly if it is at most 4,096 characters, two dotless halves, the second decoding to the keyed hash of the bytes the first decodes to, those bytes the JSON of that object, and exp a finite number not past |
| `Tokens.ForgedIsRefused` | src/mediaman/crypto/tokens.py:249-252 | So a token whose second half decodes to anything else is refused |
| `Tokens.InnerCapsRedundant` | src/mediaman/crypto/tokens.py:238-248 | For every token the two inner size caps change nothing |
| `Tokens.SubkeyCache.DeriveTokenSubkey` | src/mediaman/crypto/tokens.py:187-208 | Returns the derived key whatever was cached or evicted before, and never holds more than 64 |
| `Tokens.SubkeyCache.SignPayload` | src/mediaman/crypto/tokens.py:211-214 | Signs as the uncached definition does |

## Left out

- DeletionExecutor.Executor.DeletePath: does not model `delete_path` and `path_within_delete_roots` themselves; the file system refuses outside the roots and otherwise may remove the path, leave it or fail.
- DeletionMachine: `delete_status` is never NULL here (the schema says NOT NULL), and the `action` of an audit row is bookkeeping of the model; HTTP calls to unmonitor an item before its file goes change none of this state.
- DeletionMachine: the web delete flow, which removes rows of its own accord and writes audit rows of its own; the rest of the admin's keeps (which row is chosen, the audit rows they write).
- ScanLibrary: eligibility, upserts of metadata columns, token generation and hashing; a fetched item without a rating key raises before the loop.
- ScanLibrary: two scans of one library at once, which the job lease prevents; locking and other SQLite errors, and the fallback for a SQLite without RETURNING.
- OrphanGuard: a corrupt pending setting, which reads as empty.
- Lockout: corrupt stored timestamps, on which `is_locked_out` fails closed; the audit of an admin's unlock.
- Lockout.DayLockEndsStreak: takes the clock readings in commit order, as `EveryRowEarned` and `CountIsFailuresSinceFirst` do, because they speak of ages; `CountIsStreak` and the statements about locks do not.
- BucketLimiter: parsing and printing of addresses; the printer is any function of the network number.
- JobLease: owner ids, status and error text; a renewal lost to a lock is a renewal that does not happen.
- Notifications: a release that the database refuses leaves its row at 2 like a death does and is not a step of its own; the fetching of library indexes and the rendering of emails.
- NotificationPass: which of Radarr's and Sonarr's answers amount to ready, not ready or unreachable.
- Backoff: the digest behind the jitter; the multiplier is any function of the seed into the jitter band.
- Backoff.DelayBounds: does not model floating-point rounding, because delays are compared with clock readings far coarser.
- ThrottleMachine: a restart is no step but a new start on the table left behind; the rounding of stored times, which `SearchTrigger` has; reaping of rows after 90 days.
- SearchTrigger.SearchTrigger.TriggerPendingSearches: the abandon policy is reduced to whether it clears the item.
- SearchTrigger: the fan-out window under concurrent attempts, and a clear racing an attempt, where the code is best-effort and the strong statements are false.
- Timestamps.ParseIsoUtc: does not model the other ISO 8601 shapes `fromisoformat` reads (dates alone, basic format, week dates, reduced times, offsets other than Z and hours with minutes), nor white space beyond ASCII.
- Tokens: HMAC, SHA-256 and JSON are functions; JSON is taken to read back what it printed and the digest to tell secrets apart; an integer expiry too large for a float raises.
- Web routes, cookies, templates, bootstrap, configuration and display formatting: easy members only.
