/**
  The SQLite-backed store (internal/store/jobs.go, internal/store/retries.go,
  internal/store/sqlite.go, internal/store/config.go, internal/store/logs.go)
  as a class whose fields are its three tables. Every write of the store is
  one guarded INSERT or UPDATE and becomes one method; the row-level rules
  they apply live in JobRules.
*/
module Store {
  import opened Wrappers
  import opened Models
  import opened JobRules
  import Retry

  /**
    The integer power loop of SetFailedOrRetry: delay starts at 1 and is
    multiplied by `base` once per attempt (no iteration for attempts <= 0).
  */
  method RetryDelay(base: int, attempts: int) returns (delay: int)
    ensures attempts <= 0 ==> delay == 1
    ensures attempts > 0 ==> delay == Retry.Pow(base, attempts)
    ensures delay == DelayFor(base, attempts)
  {
    delay := 1;
    var i := 0;
    while i < attempts
      invariant 0 <= i && (attempts > 0 ==> i <= attempts) && (attempts <= 0 ==> i == 0)
      invariant delay == Retry.Pow(base, i)
    {
      delay := delay * base;
      i := i + 1;
    }
  }

  /** The delay SetFailedOrRetry waits after its `attempts`-th failure, in seconds. */
  function DelayFor(base: int, attempts: int): int {
    if attempts <= 0 then 1 else Retry.Pow(base, attempts)
  }

  /**
    With base 2 the uncapped delay of SetFailedOrRetry agrees with
    CalculateBackoff up to 8 attempts and exceeds its 300-second cap from 9 on.
  */
  lemma {:induction false} UncappedDelayVersusBackoff(attempts: int)
    ensures 1 <= attempts <= 8 ==> DelayFor(2, attempts) == Retry.CalculateBackoff(attempts)
    ensures attempts >= 9 ==> DelayFor(2, attempts) > Retry.MaxDelaySeconds
  {
    if attempts >= 9 {
      Retry.PowOfTwoMonotone(9, attempts);
      assert Retry.Pow(2, 9) == 512;
    } else if 1 <= attempts {
      Retry.PowOfTwoMonotone(attempts, 8);
      assert Retry.Pow(2, 8) == 256;
      Retry.BackoffIsPowerBelowCap(attempts);
    }
  }

  class SQLiteStorage {
    /** The jobs table, keyed by id. */
    var jobs: map<string, Job>
    /** The config table: key to value text. */
    var config: map<string, string>
    /** The job_logs table, in insertion order. */
    var logs: seq<LogRow>

    /** Every row is stored under its own id (id is the primary key). */
    ghost predicate Valid()
      reads this
    {
      WellKeyed(jobs)
    }

    /**
      NewSQLiteStorage: opens the database file, whose tables keep the rows
      they already hold (all three are empty for a new file); the migrations
      create missing tables and touch no row.
    */
    constructor (storedJobs: map<string, Job>, storedConfig: map<string, string>, storedLogs: seq<LogRow>)
      requires WellKeyed(storedJobs)
      ensures Valid()
      ensures jobs == storedJobs && config == storedConfig && logs == storedLogs
    {
      jobs := storedJobs;
      config := storedConfig;
      logs := storedLogs;
    }

    /**
      SaveJob: fills in the caller's job (state pending when empty,
      max_retries 3 when 0, created_at = updated_at = now) and inserts it;
      an id already present violates the primary key and nothing is written.
    */
    method SaveJob(j: Job, now: int) returns (saved: Job, err: Option<StoreError>)
      requires Valid()
      modifies this`jobs
      ensures Valid()
      ensures saved == Prepared(j, now)
      ensures saved.state == (if j.state == "" then Pending else j.state)
      ensures saved.maxRetries == (if j.maxRetries == 0 then DefaultMaxRetries else j.maxRetries)
      ensures saved.createdAt == now && saved.updatedAt == now
      ensures j.id in old(jobs) ==> err == Some(DuplicateKey) && jobs == old(jobs)
      ensures j.id !in old(jobs) ==> err.None? && jobs == old(jobs)[j.id := Inserted(saved)]
      ensures j.id !in old(jobs) ==> jobs[j.id].timeoutSeconds == j.timeoutSeconds && jobs[j.id].error.Some?
    {
      saved := Prepared(j, now);
      if j.id in jobs {
        err := Some(DuplicateKey);
      } else {
        WellKeyedUpdate(jobs, Inserted(saved));
        jobs := jobs[j.id := Inserted(saved)];
        err := None;
      }
    }

    /** GetJob: the row with that id, or NoRows. */
    method GetJob(id: string) returns (r: Result<Job, StoreError>)
      requires Valid()
      ensures id !in jobs <==> r == Failure(NoRows)
      ensures id in jobs ==> r == Success(jobs[id]) && r.value.id == id
    {
      if id in jobs {
        r := Success(jobs[id]);
      } else {
        r := Failure(NoRows);
      }
    }

    /** UpdateJobState: sets the state (and updated_at) of that row; a missing id changes nothing. */
    method UpdateJobState(id: string, state: JobState, now: int)
      requires Valid()
      modifies this`jobs
      ensures Valid()
      ensures id !in old(jobs) ==> jobs == old(jobs)
      ensures id in old(jobs) ==> jobs == old(jobs)[id := old(jobs)[id].(state := state, updatedAt := now)]
    {
      if id in jobs {
        WellKeyedUpdate(jobs, jobs[id].(state := state, updatedAt := now));
        jobs := jobs[id := jobs[id].(state := state, updatedAt := now)];
      }
    }

    /**
      AcquireJob: claims the oldest claimable row for `workerId` with a lease
      of timeout_seconds + 10 seconds, or returns None when no row is
      claimable. The error column is read as nullable.
    */
    method AcquireJob(now: int, workerId: string) returns (r: Option<Job>)
      requires Valid()
      modifies this`jobs
      ensures Valid()
      ensures r.None? <==> forall k :: k in old(jobs) ==> !Claimable(old(jobs)[k], now)
      ensures r.None? ==> jobs == old(jobs)
      ensures r.Some? ==> r.value.id in old(jobs) && Claimable(old(jobs)[r.value.id], now)
      ensures r.Some? ==> forall k :: k in old(jobs) && Claimable(old(jobs)[k], now) ==>
                            old(jobs)[r.value.id].createdAt <= old(jobs)[k].createdAt
      ensures r.Some? ==> r.value == Claim(old(jobs)[r.value.id], workerId, now)
      ensures r.Some? ==> jobs == old(jobs)[r.value.id := r.value]
    {
      var pick := OldestClaimable(jobs, now);
      if pick.None? {
        r := None;
      } else {
        var row := Claim(jobs[pick.value], workerId, now);
        WellKeyedUpdate(jobs, row);
        jobs := jobs[row.id := row];
        r := Some(row);
      }
    }

    /**
      RequeueExpiredLeases: every processing row whose lease has run out goes
      back to pending with worker_id and lease_until cleared; no other row
      changes.
    */
    method RequeueExpiredLeases(now: int)
      requires Valid()
      modifies this`jobs
      ensures Valid()
      ensures jobs.Keys == old(jobs).Keys
      ensures forall k :: k in old(jobs) && LeaseExpired(old(jobs)[k], now) ==> jobs[k] == Requeue(old(jobs)[k], now)
      ensures forall k :: k in old(jobs) && !LeaseExpired(old(jobs)[k], now) ==> jobs[k] == old(jobs)[k]
    {
      RequeueKeepsWellKeyed(jobs, now);
      jobs := RequeueExpired(jobs, now);
    }

    /** SetCompleted: the row becomes completed whatever its state; a missing id is a no-op. */
    method SetCompleted(id: string, now: int)
      requires Valid()
      modifies this`jobs
      ensures Valid()
      ensures id !in old(jobs) ==> jobs == old(jobs)
      ensures id in old(jobs) ==> jobs == old(jobs)[id := Complete(old(jobs)[id], now)]
    {
      if id in jobs {
        WellKeyedUpdate(jobs, Complete(jobs[id], now));
        jobs := jobs[id := Complete(jobs[id], now)];
      }
    }

    /**
      FailOrScheduleFixed: one more attempt from the caller's count; dead once
      it exceeds the caller's maxRetries, otherwise pending again after
      `fixedDelay` seconds; the error text is recorded either way.
    */
    method FailOrScheduleFixed(id: string, attempts: int, maxRetries: int, fixedDelay: int, errStr: string, now: int)
      requires Valid()
      modifies this`jobs
      ensures Valid()
      ensures id !in old(jobs) ==> jobs == old(jobs)
      ensures id in old(jobs) ==>
                jobs == old(jobs)[id := ScheduleFailure(old(jobs)[id], attempts + 1, maxRetries, fixedDelay, errStr, now)]
    {
      if id in jobs {
        WellKeyedUpdate(jobs, ScheduleFailure(jobs[id], attempts + 1, maxRetries, fixedDelay, errStr, now));
        jobs := jobs[id := ScheduleFailure(jobs[id], attempts + 1, maxRetries, fixedDelay, errStr, now)];
      }
    }

    /**
      FailOrScheduleBackoff: increments the caller's attempt count (returned as
      `updated`) and applies the same decision to the row, with `delay`
      seconds to wait when the job is retried.
    */
    method FailOrScheduleBackoff(j: Job, delay: int, errStr: string, now: int) returns (updated: Job)
      requires Valid()
      modifies this`jobs
      ensures Valid()
      ensures updated == j.(attempts := j.attempts + 1)
      ensures j.id !in old(jobs) ==> jobs == old(jobs)
      ensures j.id in old(jobs) ==>
                jobs == old(jobs)[j.id := ScheduleFailure(old(jobs)[j.id], updated.attempts, j.maxRetries, delay, errStr, now)]
    {
      updated := j.(attempts := j.attempts + 1);
      if j.id in jobs {
        WellKeyedUpdate(jobs, ScheduleFailure(jobs[j.id], updated.attempts, j.maxRetries, delay, errStr, now));
        jobs := jobs[j.id := ScheduleFailure(jobs[j.id], updated.attempts, j.maxRetries, delay, errStr, now)];
      }
    }

    /**
      RetryDLQJob: a dead row goes back to pending with attempts 0 and error
      and next_retry NULL; any other row, or a missing id, is left alone.
    */
    method RetryDLQJob(id: string, now: int)
      requires Valid()
      modifies this`jobs
      ensures Valid()
      ensures !(id in old(jobs) && old(jobs)[id].state == Dead) ==> jobs == old(jobs)
      ensures id in old(jobs) && old(jobs)[id].state == Dead ==> jobs == old(jobs)[id := RetriedFromDead(old(jobs)[id], now)]
    {
      if id in jobs && jobs[id].state == Dead {
        WellKeyedUpdate(jobs, RetriedFromDead(jobs[id], now));
        jobs := jobs[id := RetriedFromDead(jobs[id], now)];
      }
    }

    /**
      SetFailedOrRetry: increments the caller's attempt count; past
      maxRetries the row becomes dead (no error recorded), otherwise pending
      again after base^attempts seconds, uncapped, with the error cleared.
    */
    method SetFailedOrRetry(j: Job, base: int, now: int) returns (updated: Job)
      requires Valid()
      modifies this`jobs
      ensures Valid()
      ensures updated == j.(attempts := j.attempts + 1)
      ensures j.id !in old(jobs) ==> jobs == old(jobs)
      ensures j.id in old(jobs) && updated.attempts > j.maxRetries ==>
                jobs == old(jobs)[j.id := old(jobs)[j.id].(state := Dead, attempts := updated.attempts, updatedAt := now)]
      ensures j.id in old(jobs) && updated.attempts <= j.maxRetries ==>
                jobs == old(jobs)[j.id := old(jobs)[j.id].(state := Pending, attempts := updated.attempts,
                                                           nextRetry := Some(now + DelayFor(base, updated.attempts)),
                                                           error := None, updatedAt := now)]
    {
      updated := j.(attempts := j.attempts + 1);
      if updated.attempts > j.maxRetries {
        if j.id in jobs {
          WellKeyedUpdate(jobs, jobs[j.id].(state := Dead, attempts := updated.attempts, updatedAt := now));
          jobs := jobs[j.id := jobs[j.id].(state := Dead, attempts := updated.attempts, updatedAt := now)];
        }
        return;
      }
      var delay := RetryDelay(base, updated.attempts);
      if j.id in jobs {
        var row := jobs[j.id].(state := Pending, attempts := updated.attempts,
                               nextRetry := Some(now + delay), error := None, updatedAt := now);
        WellKeyedUpdate(jobs, row);
        jobs := jobs[j.id := row];
      }
    }

    /** SetConfig: an upsert of one key. */
    method SetConfig(key: string, value: string)
      modifies this`config
      ensures config == old(config)[key := value]
      ensures key in config && config[key] == value
      ensures forall k :: k != key && k in old(config) ==> k in config && config[k] == old(config)[k]
      ensures |config| <= |old(config)| + 1
    {
      config := config[key := value];
    }

    /** AppendLog: one more row, stamped with the current time. */
    method AppendLog(jobId: string, stream: string, chunk: string, now: int)
      modifies this`logs
      ensures logs == old(logs) + [LogRow(jobId, now, stream, chunk)]
    {
      logs := logs + [LogRow(jobId, now, stream, chunk)];
    }
  }
}
