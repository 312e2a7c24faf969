/**
  The row-level rules of the jobs table (internal/store/jobs.go,
  internal/store/retries.go, internal/store/sqlite.go): which row the claim
  query selects, and what each UPDATE writes into the row it matches. The
  store's methods apply these rules to its table; the lemmas here relate
  several of them.
*/
module JobRules {
  import opened Wrappers
  import opened Models
  import Lexicographic
  import opened Query

  /** SaveJob's default for a zero max_retries. */
  const DefaultMaxRetries: int := 3
  /** Seconds added to timeout_seconds when a lease is stamped. */
  const LeaseGraceSeconds: int := 10

  /** The table's keys are the rows' ids (id is the primary key). */
  ghost predicate WellKeyed(t: map<string, Job>) {
    forall k :: k in t ==> t[k].id == k
  }

  /** Storing a row under its own id keeps the table well keyed. */
  lemma WellKeyedUpdate(t: map<string, Job>, row: Job)
    requires WellKeyed(t)
    ensures WellKeyed(t[row.id := row])
  {
  }

  /** Requeueing keeps every row under its own id. */
  lemma RequeueKeepsWellKeyed(t: map<string, Job>, now: int)
    requires WellKeyed(t)
    ensures WellKeyed(RequeueExpired(t, now))
  {
  }

  /** The ids of the rows in `state`. */
  function IdsInState(t: map<string, Job>, state: JobState): set<string> {
    set k | k in t && t[k].state == state
  }

  /** The caller's job after SaveJob has filled in its defaults and timestamps. */
  function Prepared(j: Job, now: int): Job {
    j.(state := if j.state == "" then Pending else j.state,
       maxRetries := if j.maxRetries == 0 then DefaultMaxRetries else j.maxRetries,
       createdAt := now, updatedAt := now)
  }

  /**
    The row SaveJob's INSERT writes for a prepared job: the error text as a
    string (a Go string is never NULL) and no worker_id or lease_until, which
    the INSERT does not name.
  */
  function Inserted(j: Job): Job {
    j.(error := Some(j.error.GetOr("")), workerId := None, leaseUntil := None)
  }

  /** The claim query's WHERE: pending and due (next_retry NULL or reached). */
  predicate Claimable(j: Job, now: int) {
    j.state == Pending && (j.nextRetry.None? || j.nextRetry.value <= now)
  }

  /**
    The claim query: the id of a claimable row with the earliest created_at
    (ORDER BY created_at ASC LIMIT 1), or None when no row is claimable.
  */
  function OldestClaimable(t: map<string, Job>, now: int): (r: Option<string>)
    ensures r.None? <==> forall k :: k in t ==> !Claimable(t[k], now)
    ensures r.Some? ==> r.value in t && Claimable(t[r.value], now)
    ensures r.Some? ==> forall k :: k in t && Claimable(t[k], now) ==> t[r.value].createdAt <= t[k].createdAt
  {
    var keys := Lexicographic.Elements(t.Keys);
    var r := FirstBy(keys, ClaimableIn(t, now), ByCreation(t));
    OldestClaimableFacts(t, now, keys, r);
    r
  }

  /** The claim query's WHERE as a predicate on ids. */
  function ClaimableIn(t: map<string, Job>, now: int): string -> bool {
    (k: string) => k in t && Claimable(t[k], now)
  }

  /** ORDER BY created_at ASC as a key on ids. */
  function ByCreation(t: map<string, Job>): string -> int {
    (k: string) => if k in t then t[k].createdAt else 0
  }

  lemma OldestClaimableFacts(t: map<string, Job>, now: int, keys: seq<string>, r: Option<string>)
    requires forall k :: k in keys <==> k in t
    requires IsFirst(keys, ClaimableIn(t, now), ByCreation(t), r)
    ensures r.None? <==> forall k :: k in t ==> !Claimable(t[k], now)
    ensures r.Some? ==> r.value in t && Claimable(t[r.value], now)
    ensures r.Some? ==> forall k :: k in t && Claimable(t[k], now) ==> t[r.value].createdAt <= t[k].createdAt
  {
    if r.None? {
      forall k | k in t
        ensures !Claimable(t[k], now)
      {
        assert k in keys && !ClaimableIn(t, now)(k);
      }
    } else {
      forall k | k in t && Claimable(t[k], now)
        ensures t[r.value].createdAt <= t[k].createdAt
      {
        assert k in keys && ClaimableIn(t, now)(k);
        assert ByCreation(t)(r.value) <= ByCreation(t)(k);
      }
    }
  }

  /** The claim UPDATE: processing, owned by `workerId`, leased for timeout + grace seconds. */
  function Claim(j: Job, workerId: string, now: int): Job {
    j.(state := Processing, workerId := Some(workerId),
       leaseUntil := Some(now + j.timeoutSeconds + LeaseGraceSeconds), updatedAt := now)
  }

  /** The reaper's WHERE: processing with a lease that has run out. */
  predicate LeaseExpired(j: Job, now: int) {
    j.state == Processing && j.leaseUntil.Some? && j.leaseUntil.value <= now
  }

  /** The reaper's UPDATE of one row: back to pending, owner and lease cleared. */
  function Requeue(j: Job, now: int): Job {
    j.(state := Pending, workerId := None, leaseUntil := None, updatedAt := now)
  }

  /** RequeueExpiredLeases on the whole table. */
  function RequeueExpired(t: map<string, Job>, now: int): map<string, Job> {
    map k | k in t :: if LeaseExpired(t[k], now) then Requeue(t[k], now) else t[k]
  }

  /** SetCompleted's UPDATE of one row: completed, whatever the state was; nothing else but updated_at. */
  function Complete(j: Job, now: int): Job {
    j.(state := Completed, updatedAt := now)
  }

  /**
    The UPDATE both failure paths of retries.go issue, given the already
    incremented attempt count: dead once attempts exceed maxRetries (next_retry
    untouched), otherwise pending again with next_retry = now + delay; the
    error text is recorded either way.
  */
  function ScheduleFailure(row: Job, attempts: int, maxRetries: int, delay: int, errStr: string, now: int): Job {
    if attempts > maxRetries then
      row.(state := Dead, attempts := attempts, error := Some(errStr), updatedAt := now)
    else
      row.(state := Pending, attempts := attempts, nextRetry := Some(now + delay),
           error := Some(errStr), updatedAt := now)
  }

  /** RetryDLQJob's UPDATE of a dead row: pending, attempts reset, error and next_retry NULL. */
  function RetriedFromDead(j: Job, now: int): Job {
    j.(state := Pending, attempts := 0, error := None, nextRetry := None, updatedAt := now)
  }

  /** Whether a row can be scanned into the Go Job struct as written: `error` must not be NULL. */
  function ScanAsWritten(row: Job): Result<Job, StoreError> {
    if row.error.None? then Failure(NullToString) else Success(row)
  }

  /**
    GetJob as written: NoRows for a missing id; otherwise the row is scanned
    into a struct whose Error field is a plain string, so a NULL error
    column makes the call fail.
  */
  function GetJobAsWritten(t: map<string, Job>, id: string): (r: Result<Job, StoreError>)
    ensures r == Failure(NoRows) <==> id !in t
    ensures r == Failure(NullToString) <==> id in t && t[id].error.None?
    ensures r.Success? ==> id in t && r.value == t[id]
  {
    if id !in t then Failure(NoRows) else ScanAsWritten(t[id])
  }

  /**
    AcquireJob as written: the selected row is scanned into a struct whose
    Error field is a plain string, so a row whose error column is NULL makes
    the call fail (and roll back) instead of claiming it.
  */
  function AcquireAsWritten(t: map<string, Job>, now: int, workerId: string): (r: Result<Option<Job>, StoreError>)
    ensures r == Success(None) <==> OldestClaimable(t, now).None?
    ensures r.Failure? <==> OldestClaimable(t, now).Some? && t[OldestClaimable(t, now).value].error.None?
  {
    match OldestClaimable(t, now)
    case None => Success(None)
    case Some(id) =>
      match ScanAsWritten(t[id])
      case Failure(e) => Failure(e)
      case Success(row) => Success(Some(Claim(row, workerId, now)))
  }

  // ---------------------------------------------------------------------------
  // Properties that relate several rules

  /** Saving a job with timeout_seconds 0 keeps the 0, so its first lease is now + 10. */
  lemma SavedZeroTimeoutLease(j: Job, saveTime: int, claimTime: int, workerId: string)
    requires j.timeoutSeconds == 0
    ensures Claim(Inserted(Prepared(j, saveTime)), workerId, claimTime).leaseUntil == Some(claimTime + LeaseGraceSeconds)
  {
  }

  /** A claimed row is no longer claimable, so the claim query never hands it out again. */
  lemma ClaimedIsNotReselected(t: map<string, Job>, now: int, workerId: string, later: int)
    requires OldestClaimable(t, now).Some?
    ensures var id := OldestClaimable(t, now).value;
            OldestClaimable(t[id := Claim(t[id], workerId, now)], later) != Some(id)
  {
  }

  /** With a single claimable row, a second claim at the same time finds nothing. */
  lemma {:induction false} ClaimIsExclusive(t: map<string, Job>, id: string, now: int, workerId: string)
    requires id in t && Claimable(t[id], now)
    requires forall k :: k in t && k != id ==> !Claimable(t[k], now)
    ensures OldestClaimable(t, now) == Some(id)
    ensures OldestClaimable(t[id := Claim(t[id], workerId, now)], now).None?
  {
    var t' := t[id := Claim(t[id], workerId, now)];
    assert forall k :: k in t' ==> !Claimable(t'[k], now) by {
      forall k | k in t'
        ensures !Claimable(t'[k], now)
      {
        if k != id {
          assert t'[k] == t[k];
        }
      }
    }
  }

  /** Requeueing twice at the same time is requeueing once. */
  lemma {:induction false} RequeueIdempotent(t: map<string, Job>, now: int)
    ensures RequeueExpired(RequeueExpired(t, now), now) == RequeueExpired(t, now)
  {
    var once := RequeueExpired(t, now);
    forall k | k in once
      ensures !LeaseExpired(once[k], now)
    {
    }
  }

  /**
    A claim makes the row processing, owned by the worker, leased until
    now + timeout_seconds + 10, and keeps every column the claim UPDATE does
    not name.
  */
  lemma ClaimColumns(j: Job, workerId: string, now: int)
    ensures var c := Claim(j, workerId, now);
            c.state == Processing && c.workerId == Some(workerId) &&
            c.leaseUntil == Some(now + j.timeoutSeconds + LeaseGraceSeconds) && c.updatedAt == now
    ensures var c := Claim(j, workerId, now);
            c.id == j.id && c.command == j.command && c.attempts == j.attempts && c.maxRetries == j.maxRetries &&
            c.error == j.error && c.nextRetry == j.nextRetry && c.createdAt == j.createdAt
  {
  }

  /**
    The failure UPDATE decides dead exactly when the new attempt count exceeds
    maxRetries, records the error text on both paths, sets next_retry only on
    the retry path, and never touches command, max_retries, worker_id or
    lease_until.
  */
  lemma ScheduleFailureColumns(row: Job, attempts: int, maxRetries: int, delay: int, errStr: string, now: int)
    ensures var f := ScheduleFailure(row, attempts, maxRetries, delay, errStr, now);
            (f.state == Dead <==> attempts > maxRetries) && (f.state == Pending <==> attempts <= maxRetries) &&
            f.attempts == attempts && f.error == Some(errStr) && f.updatedAt == now
    ensures var f := ScheduleFailure(row, attempts, maxRetries, delay, errStr, now);
            f.nextRetry == (if attempts > maxRetries then row.nextRetry else Some(now + delay))
    ensures var f := ScheduleFailure(row, attempts, maxRetries, delay, errStr, now);
            f.id == row.id && f.command == row.command && f.maxRetries == row.maxRetries &&
            f.workerId == row.workerId && f.leaseUntil == row.leaseUntil && f.createdAt == row.createdAt
  {
  }

  /** Completing a row twice at the same time is completing it once. */
  lemma CompleteIdempotent(j: Job, now: int)
    ensures Complete(Complete(j, now), now) == Complete(j, now)
  {
  }

  /** Completing changes only the state and updated_at, never the worker or lease columns. */
  lemma CompleteKeepsOtherColumns(j: Job, now: int)
    ensures Complete(j, now) == j.(state := Completed, updatedAt := now)
    ensures Complete(j, now).workerId == j.workerId && Complete(j, now).leaseUntil == j.leaseUntil
  {
  }

  /**
    The reaper's UPDATE makes the row pending and clears worker_id and
    lease_until, keeping attempts, next_retry, error and the other columns.
  */
  lemma RequeueColumns(j: Job, now: int)
    ensures var q := Requeue(j, now);
            q.state == Pending && q.workerId.None? && q.leaseUntil.None? && q.updatedAt == now
    ensures var q := Requeue(j, now);
            q.id == j.id && q.command == j.command && q.attempts == j.attempts && q.maxRetries == j.maxRetries &&
            q.error == j.error && q.nextRetry == j.nextRetry && q.createdAt == j.createdAt &&
            q.timeoutSeconds == j.timeoutSeconds
  {
  }

  /** A requeued row is claimable at once unless it still waits for an earlier backoff. */
  lemma RequeuedIsClaimableWhenDue(j: Job, now: int)
    requires LeaseExpired(j, now)
    ensures Claimable(Requeue(j, now), now) <==> (j.nextRetry.None? || j.nextRetry.value <= now)
  {
  }

  /** A job retried out of the dead-letter state is claimable immediately, at any time. */
  lemma RetriedIsClaimable(j: Job, now: int, later: int)
    ensures Claimable(RetriedFromDead(j, now), later)
  {
  }

  /**
    The discrepancy as written: a single dead job retried from the dead-letter
    state cannot be claimed, because its error column is now NULL.
  */
  lemma {:induction false} RetriedJobBreaksAcquireAsWritten(j: Job, now: int, later: int, workerId: string)
    requires j.state == Dead
    ensures var t := map[j.id := RetriedFromDead(j, now)];
            OldestClaimable(t, later) == Some(j.id) &&
            AcquireAsWritten(t, later, workerId) == Failure(NullToString)
  {
    var t := map[j.id := RetriedFromDead(j, now)];
    assert Claimable(t[j.id], later);
    assert t.Keys == {j.id};
  }

  /**
    The same discrepancy for GetJob as written: the row of a job retried
    from the dead-letter state can no longer be read by id.
  */
  lemma RetriedJobBreaksGetJobAsWritten(t: map<string, Job>, id: string, now: int)
    requires id in t && t[id].state == Dead
    ensures GetJobAsWritten(t[id := RetriedFromDead(t[id], now)], id) == Failure(NullToString)
  {
  }
}
