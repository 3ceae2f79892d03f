# Device-log attendance sync

This project models one pass of `syncDeviceLogs`, the attendance reconciliation in
`src/server.js`, once the two attendance devices have answered. It covers the
following steps.

- The punch logs of the in-door and out-door devices are concatenated.
- They are sorted newest first.
- They are walked so that the first log seen for each `EmployeeCode` decides that
  code's status. "in" in any letter case gives `active`; any other direction,
  or none, gives `inactive`.
- The `users` table is reconciled in two loops:
  - the per-event pass writes each logged code's status to the first row whose
    `employee_id` matches, skipping admins;
  - the absence sweep re-reads every row, forces admins to `active` and sets
    unlogged non-admins to `inactive`.
- Every write is an `update({ status }).eq('id', …)` that is issued only when
  the stored status differs.

Modules:

- `Wrappers` (`wrappers.dfy`): `Option`.
- `DeviceLogs` (`device_logs.dfy`) covers lines 28-37:
  - the merge, as a stable insertion sort by descending timestamp;
  - the first-wins walk, as the method `ComputeStatus` with a loop;
  - `LatestStatus`, the reference definition: each code gets the direction of
    its latest log, and ties go to the earliest position in in-logs followed
    by out-logs.
- `UserStore` (`user_store.dfy`): the `users` table as a class over an array of
  rows, with the select by `employee_id` and the update of `status` by `id`.
  Its invariant is that ids are distinct, since `id` is the primary key.
- `Reconcile` (`reconcile.dfy`) holds the two loops and `SyncDeviceLogs`.
  - `SyncDeviceLogs` is proved to leave the table equal to the ghost function
    `Reconciled` of the old table.
  - It returns the list of writes it issued. That list is proved to be exactly
    one write per row whose status changed.
  - The properties of the pass are lemmas about `Reconciled`: the admin
    invariant, the absence policy, first-match-only, spared duplicates, only
    `status` changes, and idempotence.

Two points where the model follows what the code does rather than what its
comments suggest:

- The comments at src/server.js:50 and :70 say admins are "always" active. The
  only write that makes an admin active is in the sweep, which runs only when
  the read of all users at line 63 succeeds and returns rows (the guard at
  line 66). The model covers the failed read: then an inactive admin stays
  inactive (`SkippedSweepChangesNothing`). The empty-read case cannot arise in
  the model, since there the read returns the whole table, and a table with an
  admin is not empty.
- The results of the updates at lines 56, 72 and 80 are discarded, so a failed
  update goes unnoticed. The model treats every write as succeeding.

## Model

| member | source | states |
|---|---|---|
| DeviceLogs.PunchesInSpellings | src/server.js:33-35 | a direction punches in exactly when it is one of "in", "In", "iN", "IN"; a missing direction never does |
| DeviceLogs.InsertAddsOne | src/server.js:28 | inserting a log into the sorted stream adds exactly that log (multiset) |
| DeviceLogs.InsertKeepsOrder | src/server.js:28 | inserting into a newest-first stream keeps it newest first |
| DeviceLogs.SortNewestFirst | src/server.js:28 | the sort's result is ordered by descending timestamp and is a permutation of its input |
| DeviceLogs.MergeLogs | src/server.js:28 | the merged stream is newest first and holds exactly the in-device logs plus the out-device logs |
| DeviceLogs.FirstOf | src/server.js:31-36 | the first log of a code is a log of the stream with that code, and there is none exactly when the code does not appear |
| DeviceLogs.LatestOf | src/server.js:28-36 | the latest log of a code is a log of the stream with that code, and there is none exactly when the code does not appear |
| DeviceLogs.LatestOfIsLatest | src/server.js:28-36 | the log LatestOf picks has the greatest timestamp of its code, and no earlier log of that code is as new |
| DeviceLogs.FirstOfInsert | src/server.js:28-36 | inserting a log changes the first log of its code only when it is at least as new as the current first one; other codes are unaffected |
| DeviceLogs.FirstOfSortIsLatest | src/server.js:28-36 | the first log of a code in the stable newest-first sort is its latest log, with ties going to the earlier position |
| DeviceLogs.FirstOfAppend | src/server.js:31-36 | appending a log changes a code's first log only when the code had none |
| DeviceLogs.CodesAppend | src/server.js:31-36 | the codes seen after one more log are the earlier codes plus that log's code |
| DeviceLogs.FirstLogStatusAppend | src/server.js:34-35 | one more log sets its code's status only when the code is not yet in the map; otherwise the map is unchanged |
| DeviceLogs.FirstWinsIsFirstLog | src/server.js:31-36 | the walk's map has one entry per code of the stream, and each entry holds the status of that code's first log |
| DeviceLogs.MergedFirstWinsIsLatest | src/server.js:28-37 | walking the merged stream first-wins gives each code the status of its latest log in in-logs followed by out-logs |
| DeviceLogs.LatestStatusKeys | src/server.js:31-36 | the map's keys are exactly the codes found in the in-device logs or the out-device logs |
| DeviceLogs.LatestEventWins | src/server.js:28-37 | a logged code is active exactly when its latest log (earliest position on ties) punches in |
| DeviceLogs.ComputeStatus | src/server.js:28-37 | the loop builds exactly the latest-log status of every logged code |
| UserStore.MatchingFirst | src/server.js:41-48 | the select by employee id is empty exactly when no row has that id; otherwise its first row is the first such row of the table |
| UserStore.SetStatusOfOneRow | src/server.js:56 | with distinct ids, an update by a row's id changes that row's status only, and ids stay distinct |
| UserStore.Store.SelectByEmployee | src/server.js:41-44 | returns the rows with the given employee id, in table order |
| UserStore.Store.UpdateStatus | src/server.js:56 | every row with the given id gets the new status; the others are unchanged |
| Reconcile.ReconciledChangesOnlyStatus | src/server.js:40-85 | a pass keeps the table's length and every row's id, employee id and role; only statuses change; ids stay distinct |
| Reconcile.EventPassTouchesOnlyFirstMatches | src/server.js:47-58 | the per-event pass changes only a non-admin row that is the first match of a logged code whose lookup succeeded and whose status differs from that code's |
| Reconcile.ReconciledFirstMatchHoldsStatus | src/server.js:47-83 | after a pass, the first non-admin row of a logged code whose lookup succeeded holds that code's computed status |
| Reconcile.ReconciledSparesDuplicates | src/server.js:48-83 | a non-admin row that shares a logged code with an earlier row is never modified |
| Reconcile.ReconciledAdminsActive | src/server.js:66-75 | when the read of all users succeeds, every admin ends "active", logged or not |
| Reconcile.ReconciledAbsentInactive | src/server.js:78-83 | when the read of all users succeeds, every non-admin whose employee id is not a logged code ends "inactive" |
| Reconcile.SkippedSweepChangesNothing | src/server.js:63-66 | when the read of all users fails, admins and unlogged rows keep their row as it was |
| Reconcile.ReconciledIdempotent | src/server.js:55-80 | a second pass over the same logs leaves the table as it is and has no status change to make |
| Reconcile.EventStepUpdate | src/server.js:47-57 | handling a code whose first matching row is a non-admin changes that row's status alone |
| Reconcile.EventStepSkip | src/server.js:46-53 | a code with no row, an admin first row or a failed lookup changes nothing |
| Reconcile.LookupDuringEventPass | src/server.js:41-48 | a lookup during the pass finds nothing only when no original row carries the code, and otherwise starts with the first such row of the original table |
| Reconcile.SweptRowsUntouchedByEvents | src/server.js:66-83 | a row the sweep sets was not changed by the per-event pass |
| Reconcile.ChangesAfterWrite | src/server.js:55-56 | writing a row whose status still differs from the original adds exactly that write to the changes |
| Reconcile.IssueWrite | src/server.js:55-57 | one update by id changes that row's status alone and extends the writes by exactly that write |
| Reconcile.UpdateEmployee | src/server.js:41-59 | handling one code: the lookup, the admin skip and a write only on mismatch; the table advances by that code's step of the per-event pass |
| Reconcile.UpdateFromEvents | src/server.js:40-60 | the per-event loop, in any key order, leaves the table equal to the per-event pass, with one write per changed row |
| Reconcile.SweepAbsent | src/server.js:66-84 | the sweep forces admins to "active" and unlogged non-admins to "inactive", writing only on mismatch |
| Reconcile.SyncDeviceLogs | src/server.js:28-85 | a whole pass leaves the table equal to Reconciled of the old table and the latest-log statuses; the writes are exactly one per changed row |
| Reconcile.SyncTwice | src/server.js:40-85 | after two passes over the same logs the table equals Reconciled of the original table, the first pass's writes are exactly one per changed row, and the second pass issues no write |
| Reconcile.WorkedExampleStatus | src/server.js:28-37 | E1 punching out at 1000 and in at 1005, and E2 in at 900, gives E1 and E2 active |
| Reconcile.WorkedExamplePass | src/server.js:40-85 | on that map, E1 and E2 become active, the unlogged E3 inactive and the admin E4 active |
| DeviceLogs.PunchesIn | src/server.js:33-35 | definition: a direction punches in when it is present and lower-cases (ASCII) to "in"; its characterisation is PunchesInSpellings |
| DeviceLogs.DirectionStatus | src/server.js:35 | definition: Active when the direction punches in, Inactive otherwise, a missing direction included |
| DeviceLogs.LatestStatus | src/server.js:28-37 | reference definition: every code of the logs, and no other, mapped to the status of its latest log (earliest position on ties); ComputeStatus is proved equal to it |
| UserStore.IsAdmin | src/server.js:51 | definition: a row is an admin when its role is exactly "admin" (the same test as line 69) |
| UserStore.Matching | src/server.js:41-44 | definition: the rows whose employee id equals the code, in table order; characterised by MatchingFirst |
| UserStore.SetStatusWhere | src/server.js:56 | definition: every row whose id equals the given id gets the new status, every other row is kept; characterised by SetStatusOfOneRow |
| Reconcile.EventRow | src/server.js:47-56 | definition: a row takes its code's computed status when the code is logged and handled, its lookup did not fail, the row is the code's first match and it is not an admin; otherwise it is kept |
| Reconcile.EventPass | src/server.js:40-60 | definition: the table after the per-event loop has handled every logged code; UpdateFromEvents is proved to end there |
| Reconcile.SweepTarget | src/server.js:68-83 | definition: an admin is due "active", a non-admin whose employee id is not a logged code is due "inactive", any other row nothing |
| Reconcile.SweepRow | src/server.js:68-84 | definition: a row with its sweep target applied, or unchanged when it has none |
| Reconcile.Sweep | src/server.js:66-84 | definition: the table with every row swept; SweepAbsent is proved to end there |
| Reconcile.Reconciled | src/server.js:40-85 | definition: the per-event pass, followed by the sweep when the read of all users succeeds; SyncDeviceLogs is proved to end there and every pass property is a lemma about it |

## Left out

- HTTP server setup, CORS, routes and the manual endpoint (src/server.js:1-13, 96-108) are server plumbing. The catch at lines 88-90 swallows every error; the model has no error result to return.
- Building the device URLs, `fetch` and `.json()` (lines 20-26) are network I/O. The two log arrays are inputs.
- Supabase calls become reads and writes on the in-memory table.
  - A failed select by employee id is modelled as membership of the code in the input set `failedLookups`.
  - A failed select of all users is the input flag `allUsersReadFails`.
  - The result of an update is never checked, so writes always succeed.
- The `setInterval` timer (5000 ms, against a "30 seconds" comment) and overlapping passes are scheduling and concurrency.
- Date parsing: `LogDate` is an integer timestamp. An unparsable date, which makes the sort's comparator return NaN, is not modelled.
- `toLowerCase` is modelled for ASCII letters only. A non-string `PunchDirection`, which throws and aborts the pass, is not modelled.
- A missing or non-string `EmployeeCode` is not modelled. Codes are strings, and an employee id equals a code exactly when the two strings are equal.
- `Object.entries` key order is modelled as an arbitrary choice of the next key. Console output is left out.
- Codes named like `Object.prototype` members ("toString", "constructor") look already present to `!employeeStatus[emp]` in the source, so they never get an entry. The model treats them as ordinary codes.
- DeviceLogs.Insert and DeviceLogs.FirstWins carry no contract of their own. Their properties are the lemmas InsertAddsOne, InsertKeepsOrder and FirstWinsIsFirstLog.
- The lookup by `employee_id` (lines 41-44) has no `.order(...)`, so the store may return rows that share an `employee_id` in any order, and that order may change between passes. The model returns them in the table's fixed array order, which updates never change. With duplicate `employee_id`s, "first match", ReconciledSparesDuplicates, ReconciledIdempotent and SyncTwice therefore hold relative to that fixed order only.
- Distinct row ids are assumed: `id` is the table's primary key, and it is the store's invariant.
