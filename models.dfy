/**
  The job record and the other records kept by the store (pkg/models/types.go),
  extended with the columns the jobs table gained later: timeout_seconds,
  worker_id and lease_until.

  Timestamps are whole seconds on one clock; a nullable column is an Option.
*/
module Models {
  import opened Wrappers

  /** A job state is free text in the table; these are the named ones. */
  type JobState = string

  const Pending: JobState := "pending"
  const Processing: JobState := "processing"
  const Completed: JobState := "completed"
  const Failed: JobState := "failed"
  const Dead: JobState := "dead"

  /** One row of the jobs table. `error` is NULL-able in the table, hence an Option. */
  datatype Job = Job(
    id: string,
    command: string,
    state: JobState,
    attempts: int,
    maxRetries: int,
    error: Option<string>,
    nextRetry: Option<int>,
    createdAt: int,
    updatedAt: int,
    timeoutSeconds: int,
    workerId: Option<string>,
    leaseUntil: Option<int>)

  /** The effective configuration read by GetConfig. */
  datatype Config = Config(maxRetries: int, backoffBase: int)

  /** One row of the job_logs table. */
  datatype LogRow = LogRow(jobId: string, ts: int, stream: string, chunk: string)

  /** One line as GetLogs returns it (the job id is not selected). */
  datatype LogLine = LogLine(ts: int, stream: string, chunk: string)

  /** The errors the store reports that the model keeps. */
  datatype StoreError =
    | NoRows          // a single-row query found nothing
    | DuplicateKey    // an INSERT hit the primary key of an existing row
    | NullToString    // a NULL column was scanned into a Go string
}
