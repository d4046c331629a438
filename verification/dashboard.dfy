/** The dashboard's read-only aggregates: job counts per status over a fixed
    vocabulary (`get_job_status_counts`) and the upcoming open tasks
    (`get_upcoming_tasks`). */
module Dashboard {
  import opened Common
  import opened Store

  /** The statuses the dashboard counts. "Rejected" is not among them. */
  const CountedStatuses: seq<string> := ["Not Applied", "Applied", "Interviewing", "Offer"]

  /** Task statuses that close a task. */
  const ClosedStatuses: seq<string> := ["Completed", "Cancelled"]

  /** One row of `SELECT status, COUNT(*) ... GROUP BY status`. */
  type GroupRow = (string, nat)

  /** Every counted status at 0. */
  function Zeros(): (c: map<string, nat>)
    ensures forall s :: s in c <==> s in CountedStatuses
    ensures forall s :: s in c ==> c[s] == 0
  {
    map s | s in CountedStatuses :: 0
  }

  /** The loop `for r in rows: if r[0] in c: c[r[0]] = r[1]`: the map after
      the last row is the map after the others, updated by it. */
  function CopyCounts(c: map<string, nat>, rows: seq<GroupRow>): (r: map<string, nat>)
    ensures r.Keys == c.Keys
    decreases |rows|
  {
    if |rows| == 0 then c
    else
      var c0 := CopyCounts(c, rows[..|rows| - 1]);
      var last := rows[|rows| - 1];
      if last.0 in c0 then c0[last.0 := last.1] else c0
  }

  /** What the loop leaves under a key: the count of the last row for it,
      or the value it had when no row names it. */
  lemma {:induction false} CopyCountsValue(c: map<string, nat>, rows: seq<GroupRow>, k: string)
    requires k in c
    ensures || (exists i :: IsLast(rows, k, i) && CopyCounts(c, rows)[k] == rows[i].1)
            || ((forall i :: 0 <= i < |rows| ==> rows[i].0 != k) && CopyCounts(c, rows)[k] == c[k])
    decreases |rows|
  {
    if |rows| > 0 {
      var n := |rows| - 1;
      var init := rows[..n];
      CopyCountsValue(c, init, k);
      if rows[n].0 == k {
        assert IsLast(rows, k, n);
      } else if exists i :: IsLast(init, k, i) && CopyCounts(c, init)[k] == init[i].1 {
        var i :| IsLast(init, k, i) && CopyCounts(c, init)[k] == init[i].1;
        assert IsLast(rows, k, i);
      } else {
        forall i | 0 <= i < |rows| ensures rows[i].0 != k {
          if i < n {
            assert rows[i] == init[i];
          }
        }
      }
    }
  }

  /** `get_job_status_counts`: with no connection an empty map; otherwise
      exactly the counted statuses, each holding the count the query
      returned for it, or 0 when it returned none (or failed). */
  function JobStatusCounts(q: Query<seq<GroupRow>>): (c: map<string, nat>)
    ensures q.NoConnection? <==> c == map[]
    ensures !q.NoConnection? ==> forall s :: s in c <==> s in CountedStatuses
    ensures "Rejected" !in c
    ensures q.Failed? ==> forall s :: s in c ==> c[s] == 0
    ensures q.Rows? ==> forall s :: s in c ==>
      || (exists i :: IsLast(q.rows, s, i) && c[s] == q.rows[i].1)
      || ((forall i :: 0 <= i < |q.rows| ==> q.rows[i].0 != s) && c[s] == 0)
  {
    match q
    case NoConnection => map[]
    case Failed =>
      assert "Not Applied" in Zeros();
      Zeros()
    case Rows(rows) =>
      var c := CopyCounts(Zeros(), rows);
      assert "Not Applied" in c;
      assert forall s :: s in c ==>
        || (exists i :: IsLast(rows, s, i) && c[s] == rows[i].1)
        || ((forall i :: 0 <= i < |rows| ==> rows[i].0 != s) && c[s] == 0) by {
        forall s | s in c
          ensures || (exists i :: IsLast(rows, s, i) && c[s] == rows[i].1)
                  || ((forall i :: 0 <= i < |rows| ==> rows[i].0 != s) && c[s] == 0)
        {
          CopyCountsValue(Zeros(), rows, s);
        }
      }
      c
  }

  // ------------------------------------------------ reference: the query

  /** How many of `statuses` equal `s`. */
  function Count(statuses: seq<string>, s: string): nat
    decreases |statuses|
  {
    if |statuses| == 0 then 0
    else Count(statuses[..|statuses| - 1], s) + (if statuses[|statuses| - 1] == s then 1 else 0)
  }

  /** How many of `statuses` are outside the counted vocabulary. */
  function Uncounted(statuses: seq<string>): nat
    decreases |statuses|
  {
    if |statuses| == 0 then 0
    else Uncounted(statuses[..|statuses| - 1]) + (if statuses[|statuses| - 1] in CountedStatuses then 0 else 1)
  }

  /** The rows `WHERE status = ANY(vocab) GROUP BY status` returns for a jobs
      table whose status column is `statuses`: one row per status of `vocab`
      that occurs, with its number of occurrences. */
  function GroupByStatus(vocab: seq<string>, statuses: seq<string>): (rows: seq<GroupRow>)
    ensures forall i :: 0 <= i < |rows| ==> rows[i].0 in vocab && rows[i].1 == Count(statuses, rows[i].0)
    ensures forall s :: s in vocab && Count(statuses, s) > 0 ==> exists i :: 0 <= i < |rows| && rows[i].0 == s
    decreases |vocab|
  {
    if |vocab| == 0 then []
    else
      var rest := GroupByStatus(vocab[1..], statuses);
      var n := Count(statuses, vocab[0]);
      assert forall s :: s in vocab ==> s == vocab[0] || s in vocab[1..];
      if n > 0 then
        var rows := [(vocab[0], n)] + rest;
        assert rows[0].0 == vocab[0];
        assert forall i :: 0 <= i < |rest| ==> rows[i + 1] == rest[i];
        rows
      else rest
  }

  /** Over the jobs table, each counted status reports the number of jobs
      having it. */
  lemma StatusCountsOfJobs(statuses: seq<string>)
    ensures var c := JobStatusCounts(Rows(GroupByStatus(CountedStatuses, statuses)));
      forall s :: s in CountedStatuses ==> s in c && c[s] == Count(statuses, s)
  {
    var rows := GroupByStatus(CountedStatuses, statuses);
    var c := JobStatusCounts(Rows(rows));
    forall s | s in CountedStatuses ensures s in c && c[s] == Count(statuses, s) {
      assert s in c;
      if exists i :: IsLast(rows, s, i) && c[s] == rows[i].1 {
        var i :| IsLast(rows, s, i) && c[s] == rows[i].1;
      }
    }
  }

  /** The four counts plus the jobs outside the vocabulary (such as the
      rejected ones) make up every job. */
  lemma {:induction false} CountsAccountForJobs(statuses: seq<string>)
    ensures Count(statuses, "Not Applied") + Count(statuses, "Applied") + Count(statuses, "Interviewing")
            + Count(statuses, "Offer") + Uncounted(statuses) == |statuses|
    decreases |statuses|
  {
    if |statuses| > 0 {
      CountsAccountForJobs(statuses[..|statuses| - 1]);
    }
  }

  /** Adding a rejected job changes none of the dashboard's counts. */
  lemma RejectedNotCounted(statuses: seq<string>)
    ensures JobStatusCounts(Rows(GroupByStatus(CountedStatuses, statuses + ["Rejected"])))
         == JobStatusCounts(Rows(GroupByStatus(CountedStatuses, statuses)))
  {
    var more := statuses + ["Rejected"];
    assert more[..|more| - 1] == statuses;
    StatusCountsOfJobs(statuses);
    StatusCountsOfJobs(more);
  }

  /** Counting one more status. */
  lemma CountSnoc(statuses: seq<string>, x: string, s: string)
    ensures Count(statuses + [x], s) == Count(statuses, s) + (if x == s then 1 else 0)
  {
    assert (statuses + [x])[..|statuses|] == statuses;
  }

  /** A map keyed by exactly the counted statuses has these four keys. */
  lemma CountedKeys(c: map<string, nat>)
    requires forall s :: s in c <==> s in CountedStatuses
    ensures c.Keys == {"Not Applied", "Applied", "Interviewing", "Offer"}
  {
  }

  /** Counting in a five-element list. */
  lemma {:induction false} CountFive(a: string, b: string, c: string, d: string, e: string, s: string)
    ensures Count([a, b, c, d, e], s)
         == (if a == s then 1 else 0) + (if b == s then 1 else 0) + (if c == s then 1 else 0)
          + (if d == s then 1 else 0) + (if e == s then 1 else 0)
  {
    CountSnoc([], a, s);
    CountSnoc([a], b, s);
    CountSnoc([a, b], c, s);
    CountSnoc([a, b, c], d, s);
    CountSnoc([a, b, c, d], e, s);
    assert [a, b, c, d] + [e] == [a, b, c, d, e];
    assert [a, b, c] + [d] == [a, b, c, d];
    assert [a, b] + [c] == [a, b, c];
    assert [a] + [b] == [a, b];
    assert [] + [a] == [a];
  }

  /** Counting Applied, Applied, Interviewing, Offer, Not Applied. */
  lemma ExampleCounts(st: seq<string>)
    requires st == ["Applied", "Applied", "Interviewing", "Offer", "Not Applied"]
    ensures Count(st, "Not Applied") == 1 && Count(st, "Applied") == 2
    ensures Count(st, "Interviewing") == 1 && Count(st, "Offer") == 1
  {
    CountFive("Applied", "Applied", "Interviewing", "Offer", "Not Applied", "Not Applied");
    CountFive("Applied", "Applied", "Interviewing", "Offer", "Not Applied", "Applied");
    CountFive("Applied", "Applied", "Interviewing", "Offer", "Not Applied", "Interviewing");
    CountFive("Applied", "Applied", "Interviewing", "Offer", "Not Applied", "Offer");
  }

  /** A map is determined by its keys and the values under them. */
  lemma ExampleMap(c: map<string, nat>)
    requires c.Keys == {"Not Applied", "Applied", "Interviewing", "Offer"}
    requires c["Not Applied"] == 1 && c["Applied"] == 2 && c["Interviewing"] == 1 && c["Offer"] == 1
    ensures c == map["Not Applied" := 1, "Applied" := 2, "Interviewing" := 1, "Offer" := 1]
  {
  }

  /** Applied, Applied, Interviewing, Offer, Not Applied give one job under
      every counted status but two under Applied. */
  lemma StatusCountsExample()
    ensures JobStatusCounts(Rows(GroupByStatus(CountedStatuses,
              ["Applied", "Applied", "Interviewing", "Offer", "Not Applied"])))
         == map["Not Applied" := 1, "Applied" := 2, "Interviewing" := 1, "Offer" := 1]
  {
    var st := ["Applied", "Applied", "Interviewing", "Offer", "Not Applied"];
    ExampleCounts(st);
    StatusCountsOfJobs(st);
    var c := JobStatusCounts(Rows(GroupByStatus(CountedStatuses, st)));
    var m := map["Not Applied" := 1, "Applied" := 2, "Interviewing" := 1, "Offer" := 1];
    CountedKeys(c);
    assert c["Not Applied"] == 1 && c["Applied"] == 2 && c["Interviewing"] == 1 && c["Offer"] == 1;
    ExampleMap(c);
  }

  // ------------------------------------------------------ upcoming tasks

  predicate IsClosed(status: string) {
    status in ClosedStatuses
  }

  /** The tasks of `ts` that are not closed, in the same order. */
  function OpenTasks(ts: seq<Task>): (r: seq<Task>)
    ensures |r| <= |ts|
    ensures forall t :: t in r <==> t in ts && !IsClosed(t.status)
    decreases |ts|
  {
    if |ts| == 0 then []
    else
      assert forall t :: t in ts <==> t == ts[0] || t in ts[1..];
      if IsClosed(ts[0].status) then OpenTasks(ts[1..]) else [ts[0]] + OpenTasks(ts[1..])
  }

  /** `WHERE status NOT IN ('Completed', 'Cancelled') ... LIMIT count` over
      tasks already in the query's order. */
  function FirstOpen(ts: seq<Task>, count: nat): (r: seq<Task>)
    ensures r == OpenTasks(ts)[..Min(count, |OpenTasks(ts)|)]
    decreases |ts|
  {
    if count == 0 || |ts| == 0 then []
    else if IsClosed(ts[0].status) then FirstOpen(ts[1..], count)
    else [ts[0]] + FirstOpen(ts[1..], count - 1)
  }

  /** `get_upcoming_tasks`: at most `count` tasks, none of them closed, the
      first open ones in the query's order; empty with no connection or on a
      query error. */
  function UpcomingTasks(q: Query<seq<Task>>, count: nat): (r: seq<Task>)
    ensures !q.Rows? ==> r == []
    ensures |r| <= count
    ensures forall i :: 0 <= i < |r| ==> r[i].status != "Completed" && r[i].status != "Cancelled"
    ensures q.Rows? ==> r == OpenTasks(q.rows)[..Min(count, |OpenTasks(q.rows)|)]
    ensures q.Rows? && |OpenTasks(q.rows)| <= count ==> r == OpenTasks(q.rows)
  {
    match q
    case Rows(ts) =>
      var r := FirstOpen(ts, count);
      assert forall i :: 0 <= i < |r| ==> r[i] in OpenTasks(ts);
      r
    case _ => []
  }
}
