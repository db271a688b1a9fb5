/** The panel `renderTasks` refreshes around the task list: the statistics,
    the progress bar and the overdue indicator. The handlers that change a
    list end by rendering it. */
module Dashboard {
  import opened Tasks
  import Seqs
  import Queries

  /** What the panel shows: the four counters, the bar's percentage and
      whether the overdue filter button is highlighted. */
  datatype Panel = Panel(stats: Queries.Stats, progress: nat, overdueLit: bool)

  /** `renderTasks` as written: when the filtered view is empty it shows the
      empty state, refreshes the counters only and returns, so the bar and
      the indicator keep what they showed before; otherwise all three are
      refreshed from the user's whole list. */
  function RenderAsWritten(shown: Panel, ts: seq<Task>, query: string, filter: string, today: int)
    : (r: Panel)
    ensures r.stats == Queries.ComputeStats(ts, today)
    ensures Queries.View(ts, query, filter, today) == [] ==>
      r.progress == shown.progress && r.overdueLit == shown.overdueLit
    ensures Queries.View(ts, query, filter, today) != [] ==>
      r.progress == Queries.Progress(ts) && r.overdueLit == Queries.HasOverdue(ts, today)
  {
    var stats := Queries.ComputeStats(ts, today);
    if Queries.View(ts, query, filter, today) == [] then shown.(stats := stats)
    else Panel(stats, Queries.Progress(ts), Queries.HasOverdue(ts, today))
  }

  /** Deleting the only task, a completed one, leaves an empty list with the
      bar still at 100%. */
  lemma StaleBarAfterLastDelete(t: Task, today: int, shown: Panel)
    requires t.completed
    ensures
      var before := RenderAsWritten(shown, [t], "", "all", today);
      var after := RenderAsWritten(before, [], "", "all", today);
      && before.progress == 100
      && after.progress == 100 != Queries.Progress([])
  {
    Queries.EmptySearchIsIdentity([t]);
    assert Seqs.Filter([t], Queries.IsCompleted) == [t];
  }

  /** Two tasks, one done, under the 'pending' filter: completing the other
      empties the view, so the bar stays at 50% while every task is done. */
  lemma StaleBarWithConfetti(a: Task, b: Task, today: int, shown: Panel)
    requires a.completed && !b.completed
    ensures
      var b2 := b.(completed := true);
      var before := RenderAsWritten(shown, [a, b], "", "pending", today);
      var after := RenderAsWritten(before, [a, b2], "", "pending", today);
      && before.progress == 50
      && Queries.AllCompleted([a, b2])
      && after.progress == 50
  {
    PendingViewOfPair(a, b, today);
    PendingViewOfPair(a, b.(completed := true), today);
    HalfDone(a, b);
  }

  /** With the first task done, the 'pending' view of a pair is the second
      task while it is open and empty once it is done. */
  lemma PendingViewOfPair(a: Task, b: Task, today: int)
    requires a.completed
    ensures Queries.View([a, b], "", "pending", today) == if b.completed then [] else [b]
  {
    Queries.EmptySearchIsIdentity([a, b]);
    assert [a, b][1..] == [b];
  }

  /** One of two tasks done reads 50%. */
  lemma HalfDone(a: Task, b: Task)
    requires a.completed && !b.completed
    ensures Queries.Progress([a, b]) == 50
  {
    assert [a, b][1..] == [b];
    assert Seqs.Filter([a, b], Queries.IsCompleted) == [a];
    Queries.PercentExamples();
  }

  /** `renderTasks` with the bar and the indicator refreshed on the empty
      path too: the panel always reflects the whole list. */
  function Render(shown: Panel, ts: seq<Task>, query: string, filter: string, today: int): (r: Panel)
    ensures r.stats == Queries.ComputeStats(ts, today)
    ensures r.progress <= 100
    ensures ts == [] ==> r.progress == 0 && !r.overdueLit
    ensures Queries.AllCompleted(ts) ==> r.progress == 100
    ensures |ts| > 0 ==>
      2 * r.progress * |ts| <= 200 * Queries.CompletedCount(ts) + |ts| < 2 * (r.progress + 1) * |ts|
    ensures r.overdueLit <==> r.stats.overdue > 0
    ensures r.overdueLit <==> exists i :: 0 <= i < |ts| && Queries.IsOverdue(ts[i], today)
  {
    SomeOverdue(ts, today);
    Panel(Queries.ComputeStats(ts, today), Queries.Progress(ts), Queries.HasOverdue(ts, today))
  }

  /** The overdue indicator is lit exactly when some task of the list is overdue. */
  lemma SomeOverdue(ts: seq<Task>, today: int)
    ensures Queries.HasOverdue(ts, today) <==> exists i :: 0 <= i < |ts| && Queries.IsOverdue(ts[i], today)
  {
    var overdue := Queries.FilterByType(ts, "overdue", today);
    if Queries.HasOverdue(ts, today) {
      assert overdue[0] in ts;
      var i :| 0 <= i < |ts| && ts[i] == overdue[0];
      assert Queries.IsOverdue(ts[i], today);
    }
  }

  /** Whenever the filtered view shows some task, the render as written and
      the corrected one produce the same panel: they differ only on the
      early return. */
  lemma AsWrittenAgreesWhenShown(shown: Panel, ts: seq<Task>, query: string, filter: string, today: int)
    requires Queries.View(ts, query, filter, today) != []
    ensures RenderAsWritten(shown, ts, query, filter, today) == Render(shown, ts, query, filter, today)
  {
  }

  /** The corrected panel depends on the user's list alone: not on what was
      shown before, nor on the search or the filter in force. */
  lemma RenderIgnoresHistory(p1: Panel, p2: Panel, ts: seq<Task>, q1: string, q2: string,
                             f1: string, f2: string, today: int)
    ensures Render(p1, ts, q1, f1, today) == Render(p2, ts, q2, f2, today)
  {
  }
}
