# queueCTL job store in Dafny

queueCTL is a command-line job queue. Jobs are shell commands stored as rows
of a SQLite `jobs` table. A job moves through the states `pending`,
`processing`, `completed` and `dead` (the dead-letter queue, or DLQ). A worker:

- claims the oldest due pending job under a lease;
- runs it;
- marks it completed, or schedules a retry with exponential backoff;
- moves it to the DLQ once it has used up its retries.

The store also keeps a key/value `config` table and an append-only
`job_logs` table.

This project models that store and proves properties of it:

- `Store.SQLiteStorage` is a class whose fields are the three tables:
  - `jobs: map<string, Job>`, keyed by id;
  - `config: map<string, string>`;
  - `logs: seq<LogRow>`.

  Each of its methods stands for one store operation: a `SELECT`, a single
  guarded `INSERT` or `UPDATE`, or, for `AcquireJob`, a `SELECT` and an
  `UPDATE` in one transaction. A method that writes states the new contents
  of the table it writes and keeps the invariant `Valid()`: every row is
  stored under its own id.
- `JobRules` holds what those UPDATEs write into one row, and the claim
  query. It also holds the lemmas that relate several operations: claim
  exclusivity, requeue idempotence, and that a job retried from the DLQ can
  be claimed again.
- `List`, `Stats`, `Settings` and `Logs` are the read-only queries, as
  functions of the tables: the job listings, per-state counts, the effective
  configuration, and one job's log lines.
- `Retry` is the backoff calculator.
- `Worker` is one tick of the worker loop, with the command's outcome as a
  parameter.
- `Query` holds generic building blocks for the SQL read queries:
  - `Filter` for WHERE;
  - `SortBy` (a stable insertion sort) for ORDER BY;
  - `FirstBy` for ORDER BY … LIMIT 1;
  - `TopBy` for WHERE … ORDER BY … LIMIT n;
  - `AllBy` for WHERE … ORDER BY.
- `Lexicographic` orders strings, so that the keys of a map can be listed in
  one fixed order.

Time is a whole number of seconds, passed as `now`. The worker id that
`AcquireJob` generates is passed in as `workerId`. A nullable column is an
`Option`.

Two behaviours of the code are worth stating outright:

- The failure paths (`FailOrScheduleFixed`, `FailOrScheduleBackoff`,
  `SetFailedOrRetry`) and `SetCompleted` do not clear `worker_id` or
  `lease_until` (internal/store/retries.go:11,19,24,33,38 and, for
  `SetFailedOrRetry`, internal/store/sqlite.go:285,293-296).
- The worker tick in cmd/worker.go appends no log lines.

## Model

| member | source | states |
|---|---|---|
| Retry.CalculateBackoff | internal/core/retry.go:22-29 | The delay is between 0 and 300 seconds. It is 0 for a negative attempt count, where the conversion to `time.Duration` truncates 2^n below 1 to 0. It is at least 1 second for every attempt count >= 0. |
| Retry.BackoffIsPowerBelowCap | internal/core/retry.go:18-28 | While 2^n <= 300, the delay is exactly 2^n seconds (base 2 from NewRetryManager). |
| Retry.BackoffSaturates | internal/core/retry.go:23-27 | For every n >= 9 the delay is exactly the 300-second cap. |
| Retry.BackoffMonotone | internal/core/retry.go:23-27 | More attempts never give a shorter delay. |
| Retry.BackoffExamples | internal/core/retry.go:18-28 | n=0 gives 1s; n=1, 2, 3 give 2s, 4s, 8s; n=20 gives 300s. |
| JobRules.OldestClaimable | internal/store/jobs.go:56-60 | The claim query returns none exactly when no row is pending and due. Otherwise it returns a pending, due row whose created_at is minimal among all such rows. |
| JobRules.ClaimColumns | internal/store/jobs.go:67-73 | A claim sets processing, the worker id and lease_until = now + timeout_seconds + 10. It keeps command, attempts, max_retries, error, next_retry and created_at. |
| JobRules.SavedZeroTimeoutLease | internal/store/jobs.go:22-25 | A job saved with timeout_seconds 0 keeps the 0, so its lease ends at claim time + 10. |
| JobRules.ClaimedIsNotReselected | internal/store/jobs.go:70-75 | Once claimed, a row is never returned by the claim query again, at any later time, until another write. |
| JobRules.ClaimIsExclusive | internal/store/jobs.go:56-75 | Take a table with one claimable row. The claim query returns that row, and a second claim right after finds nothing. |
| JobRules.RequeueIdempotent | internal/store/jobs.go:83-89 | Requeueing expired leases twice at the same time gives the same table as once. |
| JobRules.RequeueColumns | internal/store/jobs.go:84-87 | A requeued row is pending with worker_id and lease_until cleared. attempts, next_retry, error, timeout_seconds and the other columns are kept. |
| JobRules.RequeuedIsClaimableWhenDue | internal/store/jobs.go:83-89 | A requeued row is claimable exactly when its next_retry is unset or has passed. |
| JobRules.CompleteIdempotent | internal/store/retries.go:10-13 | Completing a row twice equals completing it once. |
| JobRules.CompleteKeepsOtherColumns | internal/store/retries.go:10-13 | Completion sets only state and updated_at. worker_id and lease_until stay. |
| JobRules.ScheduleFailureColumns | internal/store/retries.go:29-41 | Dead exactly when the new attempt count exceeds max_retries, otherwise pending. The error text is recorded on both paths. next_retry is now + delay on the retry path and untouched on the dead path. command, max_retries, worker_id and lease_until are never touched. |
| JobRules.RetriedIsClaimable | internal/store/sqlite.go:205-211 | A job retried from the DLQ is claimable at once, because next_retry is NULL. |
| JobRules.AcquireAsWritten | internal/store/jobs.go:56-65 | AcquireJob as written returns none exactly when nothing is claimable. It fails exactly when the row it selects has a NULL error column. |
| JobRules.RetriedJobBreaksAcquireAsWritten | internal/store/sqlite.go:206-209 | A table holding one job retried from the DLQ: the claim query selects it, but AcquireJob as written fails with a NULL-to-string scan error. |
| JobRules.GetJobAsWritten | internal/store/jobs.go:29-43 | GetJob as written fails with no-rows exactly when the id is missing, and with a NULL-to-string scan error exactly when the row's error column is NULL. Otherwise it returns the stored row. |
| JobRules.RetriedJobBreaksGetJobAsWritten | internal/store/sqlite.go:206-209 | In any table, once a dead job is retried from the DLQ, GetJob as written can no longer read it: it fails with a NULL-to-string scan error. |
| List.NewestIds | internal/store/list.go:11-17 | Selects the ids that pass the filter, pairwise distinct, newest first. It selects min(limit, number matching) of them, and no matching row newer than a selected one is left out. |
| List.ListJobs | internal/store/list.go:10-32 | A limit <= 0 means 50. An empty filter admits every row. The result is min(limit, matching) distinct rows of the table, in created_at descending order. They are the newest matching rows, without timeout_seconds, worker_id or lease_until, which the query does not select. |
| List.ListJobsByState | internal/store/sqlite.go:110-130 | Exactly the rows in that state, once each, in created_at ascending order. |
| List.ListJobsAsWritten | internal/store/list.go:10-32 | list.go's ListJobs as written fails with a NULL-to-string scan error exactly when one of the rows it selects has a NULL error column. Otherwise it returns the same rows as the corrected ListJobs. |
| List.RetriedJobBreaksListJobsAsWritten | internal/store/list.go:22-27 | A table holding one job retried from the DLQ: the corrected listing returns its one row, but ListJobs as written fails with a NULL-to-string scan error. |
| List.ListJobsByStateAsWritten | internal/store/sqlite.go:110-130 | sqlite.go's ListJobs(state) as written fails with a NULL-to-string scan error exactly when some row in that state has a NULL error column. Otherwise it returns the same rows as the corrected listing. |
| List.RetriedJobBreaksPendingListAsWritten | internal/store/sqlite.go:120-125 | In any table, once a dead job is retried from the DLQ, GetPendingJobs as written fails with a NULL-to-string scan error. |
| List.GetPendingJobs | internal/store/sqlite.go:132-134 | Exactly the pending rows, once each, in created_at ascending order, with the columns the by-state query selects. |
| List.GetDLQJobs | internal/store/sqlite.go:201-203 | Exactly the dead rows, once each, in created_at ascending order, with the columns the by-state query selects. |
| Stats.GetJobStats | internal/store/stats.go:9-24 | All five named states are keys, and so is every state that occurs in the table. Each value is the number of rows in that state. A key outside the five has at least one row. |
| Stats.UnusedStateIsZero | internal/store/stats.go:14-17 | A named state that no row has is reported as 0. |
| Stats.CountsSumToRows | internal/store/stats.go:10-22 | The counts add up to the number of rows in the table. |
| Settings.AtoiDecimal | internal/store/config.go:20 | Parsing the decimal text of any integer gives the integer back. |
| Settings.AtoiRejects | internal/store/config.go:20 | Empty text, a bare sign, letters, a decimal point and leading blanks do not parse. |
| Settings.OverlayAnyOrder | internal/store/config.go:15-24 | The loop over the config rows gives the same result in every row order. Each field is decided by its own key alone. |
| Settings.GetConfig | internal/store/config.go:10-26 | Each field is its stored value when that parses as a decimal integer. Otherwise it is the default: max_retries 3, backoff_base 2. |
| Settings.EmptyGivesDefaults | internal/store/config.go:11 | With no stored rows, the configuration is (3, 2). |
| Settings.UnparsableKeepsDefault | internal/store/config.go:20 | An unparsable max_retries leaves the default 3 in place, without an error. |
| Settings.OtherKeysIgnored | internal/store/config.go:18-23 | Rows under other keys do not change the configuration. |
| Settings.SetThenGetMaxRetries | internal/store/config.go:19-20 | Storing the decimal text of n under max_retries makes GetConfig return n. backoff_base is unaffected. |
| Settings.SetThenGetBackoffBase | internal/store/config.go:21-22 | Storing the decimal text of n under backoff_base makes GetConfig return n. max_retries is unaffected. |
| Logs.GetLogs | internal/store/logs.go:20-34 | A limit <= 0 means 200. The result has min(limit, number of the job's rows) lines. Every line comes from a row of that job. Lines are in ts ascending order. No row of the job older than a returned line is left out. With fewer lines than the limit, all of the job's rows are returned. Every copy of a row of the job older than the last returned line is returned, as many times as the table holds it. No line occurs more often than the job's rows give it. |
| Store.RetryDelay | internal/store/sqlite.go:288-290 | The loop computes base^attempts, uncapped (1 when attempts <= 0). Its invariant is delay == base^i. |
| Store.UncappedDelayVersusBackoff | internal/store/sqlite.go:288-290 | With base 2, this delay equals CalculateBackoff for 1 to 8 attempts and exceeds 300 seconds from 9 on. |
| Store.SQLiteStorage.constructor | internal/store/sqlite.go:22-39 | Opening the database keeps the rows its three tables already hold; a new file gives three empty tables. The migrations only create missing tables. |
| Store.SQLiteStorage.SaveJob | internal/store/jobs.go:13-27 | Before the insert, the caller's job gets state pending when it was empty, max_retries 3 when it was 0, and created_at = updated_at = now. A duplicate id fails with the table unchanged. Otherwise exactly that row is added, with timeout_seconds kept. |
| Store.SQLiteStorage.GetJob | internal/store/jobs.go:29-43 | Fails with no-rows exactly when the id is missing. Otherwise returns the stored row. |
| Store.SQLiteStorage.UpdateJobState | internal/store/jobs.go:45-48 | Only that row's state and updated_at change. A missing id changes nothing. |
| Store.SQLiteStorage.AcquireJob | internal/store/jobs.go:51-81 | Returns none exactly when nothing is claimable, and then the table is unchanged. Otherwise it claims the claimable row with minimal created_at and returns the claimed row. Only that row changes. |
| Store.SQLiteStorage.RequeueExpiredLeases | internal/store/jobs.go:83-89 | Exactly the processing rows whose lease has expired go back to pending, with worker_id and lease_until cleared. Every other row is unchanged. |
| Store.SQLiteStorage.SetCompleted | internal/store/retries.go:10-13 | The row becomes completed whatever its state. A missing id is a no-op. |
| Store.SQLiteStorage.FailOrScheduleFixed | internal/store/retries.go:15-27 | The row takes the failure decision for attempts + 1 against the caller's maxRetries, with next_retry = now + fixedDelay. |
| Store.SQLiteStorage.FailOrScheduleBackoff | internal/store/retries.go:29-41 | The caller's job and the row both get attempts + 1. The row becomes dead or pending (next_retry = now + delay), recording the error either way. |
| Store.SQLiteStorage.RetryDLQJob | internal/store/sqlite.go:205-211 | A dead row becomes pending with attempts 0 and error and next_retry NULL. Any other row, or a missing id, is left alone. |
| Store.SQLiteStorage.SetFailedOrRetry | internal/store/sqlite.go:282-298 | attempts + 1. Past max_retries, the row becomes dead with no error recorded. Otherwise it becomes pending with next_retry = now + base^attempts and the error cleared. |
| Store.SQLiteStorage.SetConfig | internal/store/config.go:28-32 | Upsert: afterwards the key maps to the value, other keys are unchanged, and the key count grows by at most one. |
| Store.SQLiteStorage.AppendLog | internal/store/logs.go:14-18 | Exactly one row (job, now, stream, chunk) is appended, and the existing rows are unchanged. |
| Worker.Tick | cmd/worker.go:28-55 | Claims as AcquireJob does, at the claim time: the claimed row was claimable then, and no claimable row is older. The outcome is recorded at the later time the command finished. On success, the claimed row becomes completed. On failure, it gets the failure decision with the backoff of attempt count + 1, counted from the finish time. With nothing claimable, nothing changes. |
| Worker.ThreeFailuresEndDead | internal/store/retries.go:29-41 | A job with max_retries 2 fails three times, each claim made when it is due. It is pending until 2 seconds after its first failure, then until 4 seconds after its second, then dead with attempts 3. |

## Left out

- I/O is not modelled:
  - the database connection;
  - transactions (`BeginTx`, `Commit`, `Rollback`) and isolation levels;
  - error returns from the driver other than the three the model keeps: no rows, duplicate key, and NULL scanned into a string.
- Concurrency between workers is not modelled. `AcquireJob` is one atomic step, so its rows-affected check (internal/store/jobs.go:75) always sees one row and the "lost race" return cannot happen.
- The clock and UUID generation are not modelled. `now` and `workerId` are parameters. Within one store call, `CURRENT_TIMESTAMP` and Go's `time.Now` are the same `now`, and timestamps are whole seconds. Comparisons between timestamp text formats are not modelled.
- The caller's `*models.Job` is not updated in place. Where SaveJob, FailOrScheduleBackoff and SetFailedOrRetry mutate it, the model returns the updated value instead.
- Store.SQLiteStorage.SetFailedOrRetry: does not model int64 overflow of `delay * time.Second` for large attempt counts or bases. The delay is an unbounded integer.
- Store.SQLiteStorage.AcquireJob: does not model int64 overflow of `time.Duration(j.TimeoutSeconds+10) * time.Second` (internal/store/jobs.go:68) for timeouts above about 9.2e9 seconds. The lease end is an unbounded integer.
- Settings.Atoi: does not model strconv's range errors for values outside int64. Any optional-sign decimal digit string parses.
- Retry.CalculateBackoff: models only base 2, the only base the retry manager is built with. Floating-point `math.Pow` with another base is not modelled.
- The worker loop's ticker, the subprocess execution and all printing (cmd/worker.go) are not modelled, nor is the cosmetic DLQ message.
- The other CLI wiring is not modelled: cmd/root.go, cmd/list.go, cmd/logs.go, cmd/status.go, cmd/config.go, cmd/enqueue.go and cmd/queue.go.
- The schema DDL (internal/store/migrations.go) is used only for the column list and the key constraints.
- The store/store.go draft and the queue/job.go draft are not part of this model.
- The duplicated older methods in internal/store/sqlite.go are not part of this model. These are `SaveJob`, `GetJob`, `AcquireJob`, `GetConfig`, `SetConfig(cfg)`, `GetJobStats` and `SetCompleted`. The newer files define each of them again.
- SQL leaves ties in `ORDER BY created_at` and `ORDER BY ts` in an unspecified order. The listings fix one order. Their contracts state only what the SQL guarantees: the sort key's order, the limit, and which rows are chosen.

## Findings

| source | as written | input that shows it | evidently intended | confidence | as-written member | corrected member |
|---|---|---|---|---|---|---|
| internal/store/jobs.go:62 | RetryDLQJob (internal/store/sqlite.go:208) and SetFailedOrRetry (internal/store/sqlite.go:295) store NULL in `error`. AcquireJob then scans `error` into a plain Go `string`, which database/sql refuses for NULL. | A single dead job retried with RetryDLQJob. The claim query selects it, the scan fails, and AcquireJob returns an error on every tick. Because it is the oldest due row, it blocks the queue. | The retried job is claimed like any other due job. | not executed | JobRules.RetriedJobBreaksAcquireAsWritten | Store.SQLiteStorage.AcquireJob |
| internal/store/jobs.go:36 | GetJob scans the nullable `error` column into a plain Go `string`. | A dead job retried with RetryDLQJob, then read by id: the scan fails. | The retried row is returned, with no error message. | not executed | JobRules.RetriedJobBreaksGetJobAsWritten | Store.SQLiteStorage.GetJob |
| internal/store/list.go:25 | ListJobs scans each selected row's nullable `error` column into a plain Go `string`, and returns on the first failing scan. | A table holding one dead job retried with RetryDLQJob, listed with no state filter: the whole listing fails. | The listing returns the retried row. | not executed | List.RetriedJobBreaksListJobsAsWritten | List.ListJobs |
| internal/store/sqlite.go:123 | ListJobs(state) scans each row's nullable `error` column into a plain Go `string`, and returns on the first failing scan. | Any dead job retried with RetryDLQJob makes GetPendingJobs fail. | GetPendingJobs lists the retried row with the other pending rows. | not executed | List.RetriedJobBreaksPendingListAsWritten | List.ListJobsByState |

The corrected model reads `error` as a nullable column. In it, `GetJob`,
`AcquireJob` and both listings return such rows. `JobRules.RetriedIsClaimable`
together with `Store.SQLiteStorage.AcquireJob` gives the intended property:
a job retried from the DLQ is claimed by the next AcquireJob unless an older
job is due.
