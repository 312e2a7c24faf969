/**
  One tick of the worker loop in cmd/worker.go: claim a job, run it, and
  record the outcome (completed, or failed with the backoff of the next
  attempt). Running the command is outside the model; its outcome is a
  parameter.
*/
module Worker {
  import opened Wrappers
  import opened Models
  import opened JobRules
  import opened Store
  import Retry

  /** What running a job's command produced. */
  datatype Outcome = Succeeded | FailedWith(message: string)

  /**
    The row after a claimed job fails: FailOrScheduleBackoff with the
    caller's attempt count plus one and the backoff of that attempt.
  */
  function AfterFailure(row: Job, message: string, now: int): Job {
    ScheduleFailure(row, row.attempts + 1, row.maxRetries, Retry.CalculateBackoff(row.attempts + 1), message, now)
  }

  /**
    One tick: claims the oldest claimable job at `claimTime` (none means
    nothing is done), runs its command, and records `outcome` at `doneTime`,
    when the command has finished.
  */
  method Tick(s: SQLiteStorage, claimTime: int, doneTime: int, workerId: string, outcome: Outcome) returns (claimed: Option<Job>)
    requires s.Valid()
    requires claimTime <= doneTime
    modifies s`jobs
    ensures s.Valid()
    ensures claimed.None? <==> forall k :: k in old(s.jobs) ==> !Claimable(old(s.jobs)[k], claimTime)
    ensures claimed.None? ==> s.jobs == old(s.jobs)
    ensures claimed.Some? ==> claimed.value.id in old(s.jobs) && Claimable(old(s.jobs)[claimed.value.id], claimTime)
    ensures claimed.Some? ==> forall k :: k in old(s.jobs) && Claimable(old(s.jobs)[k], claimTime) ==>
                                old(s.jobs)[claimed.value.id].createdAt <= old(s.jobs)[k].createdAt
    ensures claimed.Some? ==> claimed.value == Claim(old(s.jobs)[claimed.value.id], workerId, claimTime)
    ensures claimed.Some? && outcome.Succeeded? ==>
              s.jobs == old(s.jobs)[claimed.value.id := Complete(claimed.value, doneTime)]
    ensures claimed.Some? && outcome.FailedWith? ==>
              s.jobs == old(s.jobs)[claimed.value.id := AfterFailure(claimed.value, outcome.message, doneTime)]
  {
    claimed := s.AcquireJob(claimTime, workerId);
    if claimed.None? {
      return;
    }
    var job := claimed.value;
    match outcome {
      case Succeeded =>
        s.SetCompleted(job.id, doneTime);
      case FailedWith(message) =>
        var delay := Retry.CalculateBackoff(job.attempts + 1);
        var _ := s.FailOrScheduleBackoff(job, delay, message, doneTime);
    }
  }

  /**
    A job allowed two retries that fails three times, claimed at t0, t1 and
    t2 and failing at d0, d1 and d2, each claim made as soon as the job is
    due: pending until d0 + 2, then until d1 + 4, then dead with
    attempts = 3.
  */
  lemma {:induction false} ThreeFailuresEndDead(j: Job, w: string, m: string, t0: int, d0: int, t1: int, d1: int, t2: int, d2: int)
    requires j.state == Pending && j.attempts == 0 && j.maxRetries == 2 && j.nextRetry.None?
    requires t0 <= d0 && d0 + 2 <= t1 && t1 <= d1 && d1 + 4 <= t2 && t2 <= d2
    ensures var r1 := AfterFailure(Claim(j, w, t0), m, d0);
            r1.state == Pending && r1.attempts == 1 && r1.nextRetry == Some(d0 + 2) && Claimable(r1, t1)
    ensures var r1 := AfterFailure(Claim(j, w, t0), m, d0);
            var r2 := AfterFailure(Claim(r1, w, t1), m, d1);
            r2.state == Pending && r2.attempts == 2 && r2.nextRetry == Some(d1 + 4) && Claimable(r2, t2)
    ensures var r1 := AfterFailure(Claim(j, w, t0), m, d0);
            var r2 := AfterFailure(Claim(r1, w, t1), m, d1);
            var r3 := AfterFailure(Claim(r2, w, t2), m, d2);
            r3.state == Dead && r3.attempts == 3 && r3.error == Some(m)
  {
    assert Retry.CalculateBackoff(1) == 2 && Retry.CalculateBackoff(2) == 4 by {
      Retry.BackoffExamples();
    }
  }
}
