/**
  The job listings: ListJobs(state, limit) of internal/store/list.go (newest
  first, bounded) and the older ListJobs(state) of internal/store/sqlite.go
  (oldest first, unbounded) with its two uses GetPendingJobs and GetDLQJobs.
  Both are read-only queries, so they are functions of the jobs table.
*/
module List {
  import opened Wrappers
  import opened Models
  import opened Query
  import Lexicographic
  import opened JobRules

  /** list.go's limit when the caller passes zero or less. */
  const DefaultLimit: int := 50

  /** list.go's WHERE: an empty filter admits every state. */
  predicate Admits(filter: JobState, state: JobState) {
    filter == "" || state == filter
  }

  /** The ids of the rows the filter admits. */
  function Matching(t: map<string, Job>, filter: JobState): set<string> {
    set k | k in t && Admits(filter, t[k].state)
  }

  /**
    A listed row as both queries return it: they select neither
    timeout_seconds, worker_id nor lease_until, so the returned struct has
    their zero values.
  */
  function Listed(j: Job): Job {
    j.(timeoutSeconds := 0, workerId := None, leaseUntil := None)
  }

  /** The table's ids, each once, in a fixed order. */
  function KeyOrder(t: map<string, Job>): (keys: seq<string>)
    ensures forall k :: k in keys <==> k in t
    ensures Distinct(keys)
  {
    var keys := Lexicographic.Elements(t.Keys);
    Lexicographic.OrderedIsDistinct(keys);
    keys
  }

  /** list.go's WHERE as a predicate on ids. */
  function AdmittedBy(t: map<string, Job>, state: JobState): string -> bool {
    (k: string) => k in t && Admits(state, t[k].state)
  }

  /** list.go's ORDER BY created_at DESC, as an ascending key on ids. */
  function NewestFirst(t: map<string, Job>): string -> int {
    (k: string) => if k in t then -t[k].createdAt else 0
  }

  /** The ids list.go's query selects, newest first. */
  function NewestIds(t: map<string, Job>, state: JobState, lim: nat): (ids: seq<string>)
    ensures forall k :: k in ids ==> k in Matching(t, state)
    ensures forall i :: 0 <= i < |ids| ==> ids[i] in t
    ensures Distinct(ids) && |ids| == Min(lim, |Matching(t, state)|)
    ensures forall i, j :: 0 <= i < j < |ids| ==> t[ids[i]].createdAt >= t[ids[j]].createdAt
    ensures forall k, i :: k in Matching(t, state) && 0 <= i < |ids| && t[k].createdAt > t[ids[i]].createdAt ==> k in ids
  {
    var keys := KeyOrder(t);
    var ids := TopBy(keys, AdmittedBy(t, state), NewestFirst(t), lim);
    NewestIdsFacts(t, state, keys, lim, ids);
    ids
  }

  lemma NewestIdsFacts(t: map<string, Job>, state: JobState, keys: seq<string>, lim: nat, ids: seq<string>)
    requires forall k :: k in keys <==> k in t
    requires Distinct(keys)
    requires IsTop(keys, AdmittedBy(t, state), NewestFirst(t), lim, ids)
    ensures Distinct(ids)
    ensures forall k :: k in ids ==> k in Matching(t, state)
    ensures forall i :: 0 <= i < |ids| ==> ids[i] in t
    ensures |ids| == Min(lim, |Matching(t, state)|)
    ensures forall i, j :: 0 <= i < j < |ids| ==> t[ids[i]].createdAt >= t[ids[j]].createdAt
    ensures forall k, i :: k in Matching(t, state) && 0 <= i < |ids| && t[k].createdAt > t[ids[i]].createdAt ==> k in ids
  {
    assert Chosen(keys, AdmittedBy(t, state)) == Matching(t, state);
    forall i, j | 0 <= i < j < |ids|
      ensures t[ids[i]].createdAt >= t[ids[j]].createdAt
    {
      assert ids[i] in ids && ids[j] in ids;
      assert NewestFirst(t)(ids[i]) <= NewestFirst(t)(ids[j]);
    }
    forall k, i | k in Matching(t, state) && 0 <= i < |ids| && t[k].createdAt > t[ids[i]].createdAt
      ensures k in ids
    {
      assert ids[i] in ids;
      assert NewestFirst(t)(k) < NewestFirst(t)(ids[i]);
    }
  }

  /** ListJobs of list.go: the newest admitted rows, at most `limit` (50 when limit <= 0). */
  function ListJobs(t: map<string, Job>, state: JobState, limit: int): (r: seq<Job>)
    requires WellKeyed(t)
    ensures |r| == Min(if limit <= 0 then DefaultLimit else limit, |Matching(t, state)|)
    ensures forall i :: 0 <= i < |r| ==> r[i].id in Matching(t, state) && r[i] == Listed(t[r[i].id])
    ensures forall i, j :: 0 <= i < j < |r| ==> r[i].id != r[j].id && r[i].createdAt >= r[j].createdAt
    ensures forall k, i :: k in Matching(t, state) && 0 <= i < |r| && t[k].createdAt > r[i].createdAt ==> Listed(t[k]) in r
  {
    var lim := if limit <= 0 then DefaultLimit else limit;
    var ids := NewestIds(t, state, lim);
    var r := ListedAll(t, ids);
    ListedRows(t, state, lim, ids, r);
    r
  }

  /** The listed rows of `ids`, in the order of `ids`. */
  function ListedAll(t: map<string, Job>, ids: seq<string>): (r: seq<Job>)
    requires forall i :: 0 <= i < |ids| ==> ids[i] in t
    ensures |r| == |ids| && forall i :: 0 <= i < |r| ==> r[i] == Listed(t[ids[i]])
  {
    if ids == [] then [] else [Listed(t[ids[0]])] + ListedAll(t, ids[1..])
  }

  /** Projecting the selected ids to their listed rows keeps the selection's properties. */
  lemma ListedRows(t: map<string, Job>, state: JobState, lim: nat, ids: seq<string>, r: seq<Job>)
    requires WellKeyed(t)
    requires forall k :: k in ids ==> k in Matching(t, state)
    requires forall i :: 0 <= i < |ids| ==> ids[i] in t
    requires Distinct(ids) && |ids| == Min(lim, |Matching(t, state)|)
    requires forall i, j :: 0 <= i < j < |ids| ==> t[ids[i]].createdAt >= t[ids[j]].createdAt
    requires forall k, i :: k in Matching(t, state) && 0 <= i < |ids| && t[k].createdAt > t[ids[i]].createdAt ==> k in ids
    requires |r| == |ids| && forall i :: 0 <= i < |r| ==> r[i] == Listed(t[ids[i]])
    ensures |r| == Min(lim, |Matching(t, state)|)
    ensures forall i :: 0 <= i < |r| ==> r[i].id in Matching(t, state) && r[i] == Listed(t[r[i].id])
    ensures forall i, j :: 0 <= i < j < |r| ==> r[i].id != r[j].id && r[i].createdAt >= r[j].createdAt
    ensures forall k, i :: k in Matching(t, state) && 0 <= i < |r| && t[k].createdAt > r[i].createdAt ==> Listed(t[k]) in r
  {
    assert forall i :: 0 <= i < |r| ==> r[i].id == ids[i] && ids[i] in ids;
    forall k, i | k in Matching(t, state) && 0 <= i < |r| && t[k].createdAt > r[i].createdAt
      ensures Listed(t[k]) in r
    {
      assert k in ids;
      var p :| 0 <= p < |ids| && ids[p] == k;
      assert r[p] == Listed(t[k]);
    }
  }

  /**
    ListJobs of list.go as written: the selected rows are scanned one by one
    into a struct whose Error field is a plain string, so a single selected
    row with a NULL error column makes the whole call fail.
  */
  function ListJobsAsWritten(t: map<string, Job>, state: JobState, limit: int): (r: Result<seq<Job>, StoreError>)
    requires WellKeyed(t)
    ensures r.Failure? <==> exists k :: k in NewestIds(t, state, if limit <= 0 then DefaultLimit else limit) && t[k].error.None?
    ensures r.Failure? ==> r.error == NullToString
    ensures r.Success? ==> r.value == ListJobs(t, state, limit)
  {
    var ids := NewestIds(t, state, if limit <= 0 then DefaultLimit else limit);
    ScannableIff(t, ids);
    if Scannable(t, ids) then Success(ListJobs(t, state, limit)) else Failure(NullToString)
  }

  /** Every row of `ids` can be scanned into the Go Job struct as written: none has a NULL error column. */
  predicate Scannable(t: map<string, Job>, ids: seq<string>) {
    forall i :: 0 <= i < |ids| ==> ids[i] in t && t[ids[i]].error.Some?
  }

  lemma ScannableIff(t: map<string, Job>, ids: seq<string>)
    requires forall k :: k in ids ==> k in t
    ensures Scannable(t, ids) <==> !exists k :: k in ids && t[k].error.None?
  {
    if !Scannable(t, ids) {
      var i :| 0 <= i < |ids| && !(ids[i] in t && t[ids[i]].error.Some?);
      assert ids[i] in ids;
    }
  }

  /** The discrepancy for list.go as written: listing a table whose only job was retried from the dead-letter state fails. */
  lemma {:induction false} RetriedJobBreaksListJobsAsWritten(j: Job, now: int, limit: int)
    requires j.state == Dead
    ensures var t := map[j.id := RetriedFromDead(j, now)];
            WellKeyed(t) && |ListJobs(t, "", limit)| == 1 && ListJobsAsWritten(t, "", limit) == Failure(NullToString)
  {
    var t := map[j.id := RetriedFromDead(j, now)];
    OnlyRowSelected(t, j.id, if limit <= 0 then DefaultLimit else limit);
  }

  /** In a table of one row, an unfiltered listing with a positive limit selects that row. */
  lemma OnlyRowSelected(t: map<string, Job>, id: string, lim: nat)
    requires t.Keys == {id} && lim >= 1
    ensures NewestIds(t, "", lim) == [id]
  {
    assert Matching(t, "") == {id} by {
      assert id in t && Admits("", t[id].state);
    }
    var ids := NewestIds(t, "", lim);
    assert |ids| == 1;
    assert ids[0] in ids;
  }

  /** sqlite.go's WHERE state = ? as a predicate on ids. */
  function InState(t: map<string, Job>, state: JobState): string -> bool {
    (k: string) => k in t && t[k].state == state
  }

  /** The ids sqlite.go's by-state query selects, oldest first. */
  function OldestIds(t: map<string, Job>, state: JobState): (ids: seq<string>)
    ensures forall k :: k in ids <==> k in IdsInState(t, state)
    ensures forall i :: 0 <= i < |ids| ==> ids[i] in t
    ensures Distinct(ids) && |ids| == |IdsInState(t, state)|
    ensures forall i, j :: 0 <= i < j < |ids| ==> t[ids[i]].createdAt <= t[ids[j]].createdAt
  {
    var keys := KeyOrder(t);
    var ids := AllBy(keys, InState(t, state), ByCreation(t));
    OldestIdsFacts(t, state, keys, ids);
    ids
  }

  lemma OldestIdsFacts(t: map<string, Job>, state: JobState, keys: seq<string>, ids: seq<string>)
    requires forall k :: k in keys <==> k in t
    requires Distinct(keys)
    requires IsAll(keys, InState(t, state), ByCreation(t), ids)
    ensures forall k :: k in ids <==> k in IdsInState(t, state)
    ensures forall i :: 0 <= i < |ids| ==> ids[i] in t
    ensures Distinct(ids) && |ids| == |IdsInState(t, state)|
    ensures forall i, j :: 0 <= i < j < |ids| ==> t[ids[i]].createdAt <= t[ids[j]].createdAt
  {
    assert Chosen(keys, InState(t, state)) == IdsInState(t, state);
    forall i, j | 0 <= i < j < |ids|
      ensures t[ids[i]].createdAt <= t[ids[j]].createdAt
    {
      assert ids[i] in ids && ids[j] in ids;
      assert ByCreation(t)(ids[i]) <= ByCreation(t)(ids[j]);
    }
  }

  /**
    ListJobs(state) of sqlite.go: every row in exactly that state, oldest
    first, with no limit.
  */
  function ListJobsByState(t: map<string, Job>, state: JobState): (r: seq<Job>)
    requires WellKeyed(t)
    ensures |r| == |IdsInState(t, state)|
    ensures forall i :: 0 <= i < |r| ==> r[i].id in t && r[i].state == state && r[i] == Listed(t[r[i].id])
    ensures forall k :: k in t && t[k].state == state ==> Listed(t[k]) in r
    ensures forall i, j :: 0 <= i < j < |r| ==> r[i].id != r[j].id && r[i].createdAt <= r[j].createdAt
  {
    var ids := OldestIds(t, state);
    var r := ListedAll(t, ids);
    ListedByState(t, state, ids, r);
    r
  }

  /** Projecting the by-state ids to their listed rows keeps the selection's properties. */
  lemma ListedByState(t: map<string, Job>, state: JobState, ids: seq<string>, r: seq<Job>)
    requires WellKeyed(t)
    requires forall k :: k in ids <==> k in IdsInState(t, state)
    requires forall i :: 0 <= i < |ids| ==> ids[i] in t
    requires Distinct(ids) && |ids| == |IdsInState(t, state)|
    requires forall i, j :: 0 <= i < j < |ids| ==> t[ids[i]].createdAt <= t[ids[j]].createdAt
    requires |r| == |ids| && forall i :: 0 <= i < |r| ==> r[i] == Listed(t[ids[i]])
    ensures |r| == |IdsInState(t, state)|
    ensures forall i :: 0 <= i < |r| ==> r[i].id in t && r[i].state == state && r[i] == Listed(t[r[i].id])
    ensures forall k :: k in t && t[k].state == state ==> Listed(t[k]) in r
    ensures forall i, j :: 0 <= i < j < |r| ==> r[i].id != r[j].id && r[i].createdAt <= r[j].createdAt
  {
    assert forall i :: 0 <= i < |r| ==> r[i].id == ids[i] && ids[i] in ids;
    forall k | k in t && t[k].state == state
      ensures Listed(t[k]) in r
    {
      assert k in IdsInState(t, state);
      var p :| 0 <= p < |ids| && ids[p] == k;
      assert r[p] == Listed(t[k]);
    }
  }

  /**
    ListJobs(state) of sqlite.go as written: as in list.go, one selected row
    with a NULL error column makes the whole call fail.
  */
  function ListJobsByStateAsWritten(t: map<string, Job>, state: JobState): (r: Result<seq<Job>, StoreError>)
    requires WellKeyed(t)
    ensures r.Failure? <==> exists k :: k in t && t[k].state == state && t[k].error.None?
    ensures r.Failure? ==> r.error == NullToString
    ensures r.Success? ==> r.value == ListJobsByState(t, state)
  {
    var ids := OldestIds(t, state);
    ScannableIff(t, ids);
    if Scannable(t, ids) then Success(ListJobsByState(t, state)) else Failure(NullToString)
  }

  /**
    The discrepancy for sqlite.go's listing as written: once any dead job is
    retried from the dead-letter state, GetPendingJobs fails.
  */
  lemma RetriedJobBreaksPendingListAsWritten(t: map<string, Job>, id: string, now: int)
    requires WellKeyed(t) && id in t && t[id].state == Dead
    ensures WellKeyed(t[id := RetriedFromDead(t[id], now)])
    ensures ListJobsByStateAsWritten(t[id := RetriedFromDead(t[id], now)], Pending) == Failure(NullToString)
  {
    WellKeyedUpdate(t, RetriedFromDead(t[id], now));
    var t' := t[id := RetriedFromDead(t[id], now)];
    assert id in t' && t'[id].state == Pending && t'[id].error.None?;
  }

  /** GetPendingJobs of sqlite.go: the by-state listing of pending rows. */
  function GetPendingJobs(t: map<string, Job>): (r: seq<Job>)
    requires WellKeyed(t)
    ensures |r| == |IdsInState(t, Pending)|
    ensures forall i :: 0 <= i < |r| ==> r[i].state == Pending && r[i].id in t
    ensures forall k :: k in t && t[k].state == Pending ==> Listed(t[k]) in r
    ensures forall i :: 0 <= i < |r| ==> r[i] == Listed(t[r[i].id])
    ensures forall i, j :: 0 <= i < j < |r| ==> r[i].id != r[j].id && r[i].createdAt <= r[j].createdAt
  {
    ListJobsByState(t, Pending)
  }

  /** GetDLQJobs of sqlite.go: the by-state listing of dead rows (the dead-letter queue). */
  function GetDLQJobs(t: map<string, Job>): (r: seq<Job>)
    requires WellKeyed(t)
    ensures |r| == |IdsInState(t, Dead)|
    ensures forall i :: 0 <= i < |r| ==> r[i].state == Dead && r[i].id in t
    ensures forall k :: k in t && t[k].state == Dead ==> Listed(t[k]) in r
    ensures forall i :: 0 <= i < |r| ==> r[i] == Listed(t[r[i].id])
    ensures forall i, j :: 0 <= i < j < |r| ==> r[i].id != r[j].id && r[i].createdAt <= r[j].createdAt
  {
    ListJobsByState(t, Dead)
  }
}
