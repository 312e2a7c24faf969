/**
  GetJobStats of internal/store/stats.go: the number of rows per state, with
  the five named states always present (0 when no row has them) and any other
  state string that occurs in the table under its own key.
*/
module Stats {
  import opened Models
  import opened JobRules
  import Lexicographic
  import opened Query

  /** The states GetJobStats always reports. */
  const KnownStates: set<JobState> := {Pending, Processing, Completed, Failed, Dead}

  /** The state strings that occur in the table (the groups of GROUP BY state). */
  function StatesOf(t: map<string, Job>): set<JobState> {
    set k | k in t :: t[k].state
  }

  /** The per-state counts: the named states seeded with 0, overwritten by each group's COUNT(*). */
  function GetJobStats(t: map<string, Job>): (stats: map<JobState, int>)
    ensures forall s :: s in KnownStates ==> s in stats
    ensures forall k :: k in t ==> t[k].state in stats
    ensures forall s :: s in stats ==> stats[s] == |IdsInState(t, s)|
    ensures forall s :: s in stats && s !in KnownStates ==> stats[s] > 0
  {
    var stats := map s | s in KnownStates + StatesOf(t) :: |IdsInState(t, s)|;
    forall s | s in stats && s !in KnownStates
      ensures stats[s] > 0
    {
      var k :| k in t && t[k].state == s;
      assert k in IdsInState(t, s);
    }
    stats
  }

  /** The sum of `stats` over the keys in `ks`. */
  function SumOver(stats: map<JobState, int>, ks: seq<JobState>): int
    requires forall s :: s in ks ==> s in stats
  {
    if ks == [] then 0 else stats[ks[0]] + SumOver(stats, ks[1..])
  }

  /** The sum of all the counts. */
  function Total(stats: map<JobState, int>): int {
    SumOver(stats, Lexicographic.Elements(stats.Keys))
  }

  /** The rows whose state is in `ss`. */
  function RowsIn(t: map<string, Job>, ss: set<JobState>): set<string> {
    set k | k in t && t[k].state in ss
  }

  /** A named state no row has is reported as 0. */
  lemma UnusedStateIsZero(t: map<string, Job>, s: JobState)
    requires s in KnownStates
    requires forall k :: k in t ==> t[k].state != s
    ensures s in GetJobStats(t) && GetJobStats(t)[s] == 0
  {
    assert IdsInState(t, s) == {};
  }

  /** The rows in one more state are that state's rows added to the others, disjointly. */
  lemma RowsInAddState(t: map<string, Job>, x: JobState, rest: set<JobState>)
    requires x !in rest
    ensures RowsIn(t, {x} + rest) == IdsInState(t, x) + RowsIn(t, rest)
    ensures IdsInState(t, x) * RowsIn(t, rest) == {}
  {
  }

  /** Summing counts over distinct states counts the rows in those states once each. */
  lemma {:induction false} SumOverCounts(t: map<string, Job>, stats: map<JobState, int>, ks: seq<JobState>)
    requires forall s :: s in ks ==> s in stats && stats[s] == |IdsInState(t, s)|
    requires Distinct(ks)
    ensures SumOver(stats, ks) == |RowsIn(t, set s | s in ks)|
  {
    if ks == [] {
      assert RowsIn(t, set s | s in ks) == {};
    } else {
      var rest := ks[1..];
      DistinctTail(ks);
      SumOverCounts(t, stats, rest);
      assert (set s | s in ks) == {ks[0]} + (set s | s in rest) by {
        assert ks == [ks[0]] + rest;
      }
      RowsInAddState(t, ks[0], set s | s in rest);
    }
  }

  /** Every row's state is among `states`, so the rows in `states` are all the rows. */
  lemma AllRowsCovered(t: map<string, Job>, states: set<JobState>)
    requires forall k :: k in t ==> t[k].state in states
    ensures RowsIn(t, states) == t.Keys
  {
  }

  /** The counts add up to the number of rows in the table. */
  lemma {:induction false} CountsSumToRows(t: map<string, Job>)
    ensures Total(GetJobStats(t)) == |t|
  {
    var stats := GetJobStats(t);
    var ks := Lexicographic.Elements(stats.Keys);
    Lexicographic.OrderedIsDistinct(ks);
    SumOverCounts(t, stats, ks);
    AllRowsCovered(t, set s | s in ks);
  }
}
