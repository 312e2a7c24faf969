/**
  The read side of the job_logs table (internal/store/logs.go): GetLogs
  returns one job's lines, oldest first, at most `limit` of them (200 when
  limit <= 0). AppendLog is a method of the store.
*/
module Logs {
  import opened Models
  import opened Query

  /** GetLogs' limit when the caller passes zero or less. */
  const DefaultLogLimit: int := 200

  /** The WHERE of GetLogs: rows of one job. */
  function OfJob(jobId: string): LogRow -> bool {
    (row: LogRow) => row.jobId == jobId
  }

  /** The ORDER BY of GetLogs: the timestamp. */
  function ByTime(row: LogRow): int {
    row.ts
  }

  /** A selected row as GetLogs returns it (ts, stream, chunk). */
  function Line(row: LogRow): LogLine {
    LogLine(row.ts, row.stream, row.chunk)
  }

  /** The lines of `rows`, in order. */
  function Lines(rows: seq<LogRow>): (lines: seq<LogLine>)
    ensures |lines| == |rows| && forall i :: 0 <= i < |rows| ==> lines[i] == Line(rows[i])
  {
    if rows == [] then [] else [Line(rows[0])] + Lines(rows[1..])
  }

  /** The effective limit. */
  function LogLimit(limit: int): (lim: nat)
    ensures lim == if limit <= 0 then DefaultLogLimit else limit
  {
    if limit <= 0 then DefaultLogLimit else limit
  }

  /** GetLogs: the job's rows ordered by ts ascending, limited, projected to lines. */
  function GetLogs(logs: seq<LogRow>, jobId: string, limit: int): (lines: seq<LogLine>)
    ensures |lines| == Min(LogLimit(limit), |Filter(logs, OfJob(jobId))|)
    ensures forall l :: l in lines ==> exists row :: row in logs && row.jobId == jobId && Line(row) == l
    ensures forall i, j :: 0 <= i < j < |lines| ==> lines[i].ts <= lines[j].ts
    ensures forall row, i :: row in logs && row.jobId == jobId && 0 <= i < |lines| && row.ts < lines[i].ts ==> Line(row) in lines
    ensures |lines| < LogLimit(limit) ==> forall row :: row in logs && row.jobId == jobId ==> Line(row) in lines
    ensures lines != [] ==> forall row :: row in logs && row.jobId == jobId && row.ts < lines[|lines| - 1].ts ==> multiset(lines)[Line(row)] == multiset(logs)[row]
    ensures multiset(lines) <= multiset(Lines(Filter(logs, OfJob(jobId))))
  {
    var rows := TopBy(logs, OfJob(jobId), ByTime, LogLimit(limit));
    LogPage(logs, jobId, LogLimit(limit), rows);
    Lines(rows)
  }

  /** The lines of the selected rows keep the selection's properties. */
  lemma LogPage(logs: seq<LogRow>, jobId: string, lim: nat, rows: seq<LogRow>)
    requires IsTop(logs, OfJob(jobId), ByTime, lim, rows)
    ensures |Lines(rows)| == Min(lim, |Filter(logs, OfJob(jobId))|)
    ensures forall l :: l in Lines(rows) ==> exists row :: row in logs && row.jobId == jobId && Line(row) == l
    ensures forall i, j :: 0 <= i < j < |Lines(rows)| ==> Lines(rows)[i].ts <= Lines(rows)[j].ts
    ensures forall row, i :: row in logs && row.jobId == jobId && 0 <= i < |Lines(rows)| && row.ts < Lines(rows)[i].ts ==> Line(row) in Lines(rows)
    ensures |Lines(rows)| < lim ==> forall row :: row in logs && row.jobId == jobId ==> Line(row) in Lines(rows)
    ensures rows != [] ==> forall row :: row in logs && row.jobId == jobId && row.ts < Lines(rows)[|rows| - 1].ts ==> multiset(Lines(rows))[Line(row)] == multiset(logs)[row]
    ensures multiset(Lines(rows)) <= multiset(Lines(Filter(logs, OfJob(jobId))))
  {
    LinesOfRows(logs, jobId, lim, rows, Lines(rows));
    LinesSubMultiset(rows, Filter(logs, OfJob(jobId)));
    LinesCopies(logs, jobId, lim, rows);
  }

  /** Every copy of a job's row older than a selected row is selected, so its line occurs as often as the row. */
  lemma LinesCopies(logs: seq<LogRow>, jobId: string, lim: nat, rows: seq<LogRow>)
    requires IsTop(logs, OfJob(jobId), ByTime, lim, rows)
    ensures rows != [] ==> forall row :: row in logs && row.jobId == jobId && row.ts < Lines(rows)[|rows| - 1].ts ==> multiset(Lines(rows))[Line(row)] == multiset(logs)[row]
  {
    if rows != [] {
      var last := |rows| - 1;
      forall row | row in logs && row.jobId == jobId && row.ts < Lines(rows)[last].ts
        ensures multiset(Lines(rows))[Line(row)] == multiset(logs)[row]
      {
        assert OfJob(jobId)(row) && ByTime(row) < ByTime(rows[last]);
        LinesCount(rows, row);
      }
    }
  }

  /** Among rows of one job, a line occurs exactly as often as its row. */
  lemma {:induction false} LinesCount(a: seq<LogRow>, row: LogRow)
    requires forall x :: x in a ==> x.jobId == row.jobId
    ensures multiset(Lines(a))[Line(row)] == multiset(a)[row]
    decreases |a|
  {
    if a != [] {
      LinesCons(a);
      forall x | x in a[1..]
        ensures x.jobId == row.jobId
      {
        assert x in a;
      }
      LinesCount(a[1..], row);
      assert a[0] in a;
      assert Line(a[0]) == Line(row) <==> a[0] == row;
      assert multiset(Lines(a))[Line(row)] == multiset(Lines(a[1..]))[Line(row)] + multiset{Line(a[0])}[Line(row)];
      assert multiset(a)[row] == multiset(a[1..])[row] + multiset{a[0]}[row];
    }
  }

  lemma {:induction false} LinesAppend(a: seq<LogRow>, b: seq<LogRow>)
    ensures Lines(a + b) == Lines(a) + Lines(b)
  {
    assert |Lines(a + b)| == |Lines(a) + Lines(b)|;
    forall i | 0 <= i < |a + b|
      ensures Lines(a + b)[i] == (Lines(a) + Lines(b))[i]
    {
      if i >= |a| {
        assert (a + b)[i] == b[i - |a|];
      }
    }
  }

  /** A row taken at most as often as it occurs gives a line taken at most as often as its row's line occurs. */
  lemma {:induction false} LinesSubMultiset(a: seq<LogRow>, b: seq<LogRow>)
    requires multiset(a) <= multiset(b)
    ensures multiset(Lines(a)) <= multiset(Lines(b))
    decreases |a|
  {
    if a != [] {
      var x := a[0];
      assert x in multiset(a);
      var k :| 0 <= k < |b| && b[k] == x;
      var rest := b[..k] + b[k + 1..];
      LinesRemoveAt(b, k);
      LinesCons(a);
      MultisetCancel(multiset(a[1..]), multiset(rest), x);
      LinesSubMultiset(a[1..], rest);
      MultisetAdd(multiset(Lines(a[1..])), multiset(Lines(rest)), Line(x));
    }
  }

  /** The first row's line is one copy in the lines. */
  lemma LinesCons(a: seq<LogRow>)
    requires a != []
    ensures multiset(a) == multiset(a[1..]) + multiset{a[0]}
    ensures multiset(Lines(a)) == multiset(Lines(a[1..])) + multiset{Line(a[0])}
  {
    assert a == [a[0]] + a[1..];
  }

  lemma MultisetAdd<T>(p: multiset<T>, q: multiset<T>, x: T)
    requires p <= q
    ensures p + multiset{x} <= q + multiset{x}
  {
  }

  /** Removing the row at `k` removes one copy of that row and one of its line. */
  lemma LinesRemoveAt(b: seq<LogRow>, k: int)
    requires 0 <= k < |b|
    ensures multiset(b) == multiset(b[..k] + b[k + 1..]) + multiset{b[k]}
    ensures multiset(Lines(b)) == multiset(Lines(b[..k] + b[k + 1..])) + multiset{Line(b[k])}
  {
    var p, x, q := b[..k], b[k], b[k + 1..];
    SplitAt(b, k);
    LinesSplit(p, x, q);
    LinesOfEqual(b, p + [x] + q);
  }

  lemma SplitAt<T>(b: seq<T>, k: int)
    requires 0 <= k < |b|
    ensures b == b[..k] + [b[k]] + b[k + 1..]
  {
    assert |b| == |b[..k] + [b[k]] + b[k + 1..]|;
    forall i | 0 <= i < |b|
      ensures b[i] == (b[..k] + [b[k]] + b[k + 1..])[i]
    {
    }
  }

  lemma LinesOfEqual(a: seq<LogRow>, b: seq<LogRow>)
    requires a == b
    ensures multiset(Lines(a)) == multiset(Lines(b))
  {
  }

  lemma LinesSplit(p: seq<LogRow>, x: LogRow, q: seq<LogRow>)
    ensures multiset(Lines(p + [x] + q)) == multiset(Lines(p + q)) + multiset{Line(x)}
  {
    LinesAppend(p + [x], q);
    LinesAppend(p, [x]);
    LinesAppend(p, q);
    var lp, lq := Lines(p), Lines(q);
    assert Lines([x]) == [Line(x)];
    assert multiset(lp + [Line(x)] + lq) == multiset(lp) + multiset{Line(x)} + multiset(lq);
  }

  lemma MultisetCancel<T>(p: multiset<T>, q: multiset<T>, x: T)
    requires p + multiset{x} <= q + multiset{x}
    ensures p <= q
  {
    forall y
      ensures p[y] <= q[y]
    {
      assert (p + multiset{x})[y] == p[y] + multiset{x}[y];
      assert (q + multiset{x})[y] == q[y] + multiset{x}[y];
    }
  }

  /** Projecting the selected rows to lines keeps the selection's properties. */
  lemma LinesOfRows(logs: seq<LogRow>, jobId: string, lim: nat, rows: seq<LogRow>, lines: seq<LogLine>)
    requires IsTop(logs, OfJob(jobId), ByTime, lim, rows)
    requires |lines| == |rows| && forall i :: 0 <= i < |rows| ==> lines[i] == Line(rows[i])
    ensures forall l :: l in lines ==> exists row :: row in logs && row.jobId == jobId && Line(row) == l
    ensures forall i, j :: 0 <= i < j < |lines| ==> lines[i].ts <= lines[j].ts
    ensures forall row, i :: row in logs && row.jobId == jobId && 0 <= i < |lines| && row.ts < lines[i].ts ==> Line(row) in lines
    ensures |lines| < lim ==> forall row :: row in logs && row.jobId == jobId ==> Line(row) in lines
  {
    LinesAscending(rows, lines);
    LinesClosed(logs, jobId, rows, lines);
    if |lines| < lim {
      LinesComplete(logs, jobId, rows, lines);
    }
    LinesFromRows(logs, jobId, rows, lines);
  }

  lemma LinesFromRows(logs: seq<LogRow>, jobId: string, rows: seq<LogRow>, lines: seq<LogLine>)
    requires forall x :: x in rows ==> x in logs && OfJob(jobId)(x)
    requires |lines| == |rows| && forall i :: 0 <= i < |rows| ==> lines[i] == Line(rows[i])
    ensures forall l :: l in lines ==> exists row :: row in logs && row.jobId == jobId && Line(row) == l
  {
    forall l | l in lines
      ensures exists row :: row in logs && row.jobId == jobId && Line(row) == l
    {
      var i :| 0 <= i < |lines| && lines[i] == l;
      assert rows[i] in rows && OfJob(jobId)(rows[i]);
    }
  }

  lemma LinesAscending(rows: seq<LogRow>, lines: seq<LogLine>)
    requires SortedBy(rows, ByTime)
    requires |lines| == |rows| && forall i :: 0 <= i < |rows| ==> lines[i] == Line(rows[i])
    ensures forall i, j :: 0 <= i < j < |lines| ==> lines[i].ts <= lines[j].ts
  {
    forall i, j | 0 <= i < j < |lines|
      ensures lines[i].ts <= lines[j].ts
    {
      assert ByTime(rows[i]) <= ByTime(rows[j]);
    }
  }

  lemma LinesClosed(logs: seq<LogRow>, jobId: string, rows: seq<LogRow>, lines: seq<LogLine>)
    requires forall x, i :: x in logs && OfJob(jobId)(x) && 0 <= i < |rows| && ByTime(x) < ByTime(rows[i]) ==> x in rows
    requires |lines| == |rows| && forall i :: 0 <= i < |rows| ==> lines[i] == Line(rows[i])
    ensures forall row, i :: row in logs && row.jobId == jobId && 0 <= i < |lines| && row.ts < lines[i].ts ==> Line(row) in lines
  {
    forall row, i | row in logs && row.jobId == jobId && 0 <= i < |lines| && row.ts < lines[i].ts
      ensures Line(row) in lines
    {
      assert OfJob(jobId)(row) && ByTime(row) < ByTime(rows[i]);
      var p :| 0 <= p < |rows| && rows[p] == row;
      assert lines[p] == Line(row);
    }
  }

  lemma LinesComplete(logs: seq<LogRow>, jobId: string, rows: seq<LogRow>, lines: seq<LogLine>)
    requires forall x :: x in logs && OfJob(jobId)(x) ==> x in rows
    requires |lines| == |rows| && forall i :: 0 <= i < |rows| ==> lines[i] == Line(rows[i])
    ensures forall row :: row in logs && row.jobId == jobId ==> Line(row) in lines
  {
    forall row | row in logs && row.jobId == jobId
      ensures Line(row) in lines
    {
      assert OfJob(jobId)(row);
      var p :| 0 <= p < |rows| && rows[p] == row;
      assert lines[p] == Line(row);
    }
  }
}
