/** Derived views of one user's task list: overdue detection, search, the
    type filters, statistics, progress, the completion check and the sort
    orders. All of them are pure functions of the list (and of today's day). */
module Queries {
  import opened Wrappers
  import opened Tasks
  import Seqs
  import Text
  import Sorting

  // ---------------------------------------------------------------- overdue

  /** A task is overdue when it has a due day, is still open, and that day is
      strictly before today. */
  predicate IsOverdue(t: Task, today: int) {
    t.due.Some? && !t.completed && t.due.value < today
  }

  /** The boundary cases of `IsOverdue`: due today is not overdue, due
      yesterday is, and a completed or undated task never is. */
  lemma OverdueBoundary(t: Task, today: int)
    ensures t.due == Some(today) ==> !IsOverdue(t, today)
    ensures t.due == Some(today - 1) && !t.completed ==> IsOverdue(t, today)
    ensures t.completed || t.due.None? ==> !IsOverdue(t, today)
  {
  }

  /** Once overdue, a task stays overdue on every later day until it is completed. */
  lemma OverdueIsPermanent(t: Task, day: int, later: int)
    requires IsOverdue(t, day) && day <= later
    ensures IsOverdue(t, later)
  {
  }

  // ---------------------------------------------------------------- search

  /** The lower-cased title or the lower-cased description contains `q`. */
  predicate Matches(t: Task, q: string) {
    Text.Contains(Text.ToLower(t.text), q) || Text.Contains(Text.ToLower(t.description), q)
  }

  function MatchesQuery(q: string): Task -> bool {
    (t: Task) => Matches(t, q)
  }

  /** The search box: the query is lower-cased as typed, and a non-empty one
      keeps the tasks whose title or description contains it, ignoring case. */
  function Search(ts: seq<Task>, query: string): (r: seq<Task>)
    ensures Seqs.Subseq(r, ts)
    ensures forall i :: 0 <= i < |r| ==> r[i] in ts && Matches(r[i], Text.ToLower(query))
    ensures forall i :: 0 <= i < |ts| && Matches(ts[i], Text.ToLower(query)) ==> ts[i] in r
    ensures forall t :: multiset(r)[t] == if Matches(t, Text.ToLower(query)) then multiset(ts)[t] else 0
  {
    var q := Text.ToLower(query);
    Seqs.FilterCount(ts, MatchesQuery(q));
    if q == [] then
      EmptyQueryMatchesAll();
      assert Seqs.Subseq(Seqs.Filter(ts, MatchesQuery(q)), ts);
      Seqs.FilterAll(ts, MatchesQuery(q));
      ts
    else Seqs.Filter(ts, MatchesQuery(q))
  }

  /** Every task matches the empty query. */
  lemma EmptyQueryMatchesAll()
    ensures forall t :: Matches(t, [])
  {
    forall t: Task
      ensures Matches(t, [])
    {
      Text.ContainsEmpty(Text.ToLower(t.text));
    }
  }

  /** An empty query shows the whole list, and the guard on an empty query
      changes nothing: filtering by the empty string keeps every task too. */
  lemma EmptySearchIsIdentity(ts: seq<Task>)
    ensures Search(ts, []) == ts
    ensures Seqs.Filter(ts, MatchesQuery([])) == ts
  {
    EmptyQueryMatchesAll();
    Seqs.FilterAll(ts, MatchesQuery([]));
  }

  // ---------------------------------------------------------------- type filters

  predicate IsCompleted(t: Task) { t.completed }

  predicate IsPending(t: Task) { !t.completed }

  function OverdueOn(today: int): Task -> bool {
    (t: Task) => !t.completed && IsOverdue(t, today)
  }

  /** Whether the type filter named `filter` lets `t` through. */
  predicate OfType(t: Task, filter: string, today: int) {
    match filter
    case "completed" => t.completed
    case "pending" => !t.completed
    case "overdue" => IsOverdue(t, today)
    case _ => true
  }

  /** `filterTasksByType`: 'completed', 'pending' and 'overdue' select those
      tasks; any other filter name shows the list as it is. */
  function FilterByType(ts: seq<Task>, filter: string, today: int): (r: seq<Task>)
    ensures Seqs.Subseq(r, ts)
    ensures forall t :: multiset(r)[t] == if OfType(t, filter, today) then multiset(ts)[t] else 0
    ensures filter != "completed" && filter != "pending" && filter != "overdue" ==> r == ts
    ensures filter == "completed" ==>
      (forall i :: 0 <= i < |r| ==> r[i] in ts && r[i].completed)
      && (forall i :: 0 <= i < |ts| && ts[i].completed ==> ts[i] in r)
    ensures filter == "pending" ==>
      (forall i :: 0 <= i < |r| ==> r[i] in ts && !r[i].completed)
      && (forall i :: 0 <= i < |ts| && !ts[i].completed ==> ts[i] in r)
    ensures filter == "overdue" ==>
      (forall i :: 0 <= i < |r| ==> r[i] in ts && IsOverdue(r[i], today))
      && (forall i :: 0 <= i < |ts| && IsOverdue(ts[i], today) ==> ts[i] in r)
  {
    if filter == "completed" then Seqs.FilterCount(ts, IsCompleted); Seqs.Filter(ts, IsCompleted)
    else if filter == "pending" then Seqs.FilterCount(ts, IsPending); Seqs.Filter(ts, IsPending)
    else if filter == "overdue" then Seqs.FilterCount(ts, OverdueOn(today)); Seqs.Filter(ts, OverdueOn(today))
    else
      Seqs.SubseqRefl(ts); ts
  }

  /** 'completed' and 'pending' split the list between them. */
  lemma CompletedPendingPartition(ts: seq<Task>, today: int)
    ensures |FilterByType(ts, "completed", today)| + |FilterByType(ts, "pending", today)| == |ts|
    ensures multiset(FilterByType(ts, "completed", today)) + multiset(FilterByType(ts, "pending", today))
            == multiset(ts)
  {
    Seqs.FilterSplit(ts, IsCompleted, IsPending);
  }

  /** The 'overdue' view is a subsequence of the 'pending' view. */
  lemma OverdueWithinPending(ts: seq<Task>, today: int)
    ensures Seqs.Subseq(FilterByType(ts, "overdue", today), FilterByType(ts, "pending", today))
    ensures |FilterByType(ts, "overdue", today)| <= |FilterByType(ts, "pending", today)|
  {
    Seqs.FilterStronger(ts, OverdueOn(today), IsPending);
  }

  // ---------------------------------------------------------------- the rendered view

  /** What the list shows: the search result, then the type filter. Each
      task the user has appears as often as in the list when it matches the
      query and passes the type filter, and not at all otherwise. */
  function View(ts: seq<Task>, query: string, filter: string, today: int): (r: seq<Task>)
    ensures Seqs.Subseq(r, ts)
    ensures Seqs.Subseq(r, FilterByType(ts, filter, today))
    ensures forall t :: (multiset(r)[t] ==
              if Matches(t, Text.ToLower(query)) && OfType(t, filter, today) then multiset(ts)[t] else 0)
  {
    var found := Search(ts, query);
    var r := FilterByType(found, filter, today);
    Seqs.SubseqTrans(r, found, ts);
    ViewCommutes(ts, query, filter, today);
    r
  }

  /** The tasks the view keeps: matching the query and passing the type filter. */
  function Shown(q: string, filter: string, today: int): Task -> bool {
    (t: Task) => Matches(t, q) && OfType(t, filter, today)
  }

  /** Search and type filter commute: in either order they select, from the
      user's list, exactly the tasks `Shown` keeps. */
  lemma ViewCommutes(ts: seq<Task>, query: string, filter: string, today: int)
    ensures FilterByType(Search(ts, query), filter, today) == Search(FilterByType(ts, filter, today), query)
    ensures Search(FilterByType(ts, filter, today), query) == Seqs.Filter(ts, Shown(Text.ToLower(query), filter, today))
  {
    var p := Shown(Text.ToLower(query), filter, today);
    var found, typed := Search(ts, query), FilterByType(ts, filter, today);
    var a, b := FilterByType(found, filter, today), Search(typed, query);
    Seqs.SubseqTrans(a, found, ts);
    Seqs.SubseqTrans(b, typed, ts);
    Seqs.FilterUnique(ts, p, a);
    Seqs.FilterUnique(ts, p, b);
  }

  // ---------------------------------------------------------------- statistics

  function CompletedCount(ts: seq<Task>): nat {
    |Seqs.Filter(ts, IsCompleted)|
  }

  /** Replacing one task moves the completed count by the change in that task's flag. */
  lemma {:induction false} CompletedCountUpdate(ts: seq<Task>, i: int, t: Task)
    requires 0 <= i < |ts|
    ensures CompletedCount(ts[i := t]) + (if ts[i].completed then 1 else 0)
            == CompletedCount(ts) + (if t.completed then 1 else 0)
  {
    assert ts[i := t][1..] == if i == 0 then ts[1..] else ts[1..][i - 1 := t];
    if i > 0 {
      CompletedCountUpdate(ts[1..], i - 1, t);
    }
  }

  /** The four counters of the statistics panel. */
  datatype Stats = Stats(total: nat, completed: nat, pending: int, overdue: nat)

  /** `updateStats`: pending is derived as total minus completed, and it agrees
      with the length of the 'pending' view; overdue never exceeds pending. */
  function ComputeStats(ts: seq<Task>, today: int): (r: Stats)
    ensures r.total == |ts|
    ensures r.completed == |FilterByType(ts, "completed", today)|
    ensures r.pending == r.total - r.completed == |FilterByType(ts, "pending", today)|
    ensures r.overdue == |FilterByType(ts, "overdue", today)|
    ensures 0 <= r.overdue <= r.pending
  {
    var completed := CompletedCount(ts);
    CompletedPendingPartition(ts, today);
    OverdueWithinPending(ts, today);
    Stats(|ts|, completed, |ts| - completed, |Seqs.Filter(ts, OverdueOn(today))|)
  }

  /** `Math.round(completed / total * 100)` in integers, 0 for an empty list:
      `r` is the whole percentage nearest to the exact one, halves rounding up. */
  function Percent(completed: nat, total: nat): (r: nat)
    requires completed <= total
    ensures r <= 100
    ensures total == 0 ==> r == 0
    ensures total > 0 ==> 2 * r * total <= 200 * completed + total < 2 * (r + 1) * total
  {
    if total == 0 then 0
    else
      var r := (200 * completed + total) / (2 * total);
      DivBounds(200 * completed + total, 2 * total);
      assert 200 * completed + total < 101 * (2 * total);
      MulCancel(2 * total, r, 101);
      r
  }

  lemma DivBounds(a: nat, b: nat)
    requires b > 0
    ensures (a / b) * b <= a < (a / b + 1) * b
  {
  }

  lemma MulCancel(b: nat, x: nat, y: nat)
    requires x * b < y * b
    ensures x < y
  {
  }

  /** `updateProgress`: the percentage of completed tasks. */
  function Progress(ts: seq<Task>): (r: nat)
    ensures r <= 100
    ensures |ts| == 0 ==> r == 0
    ensures |ts| > 0 ==> 2 * r * |ts| <= 200 * CompletedCount(ts) + |ts| < 2 * (r + 1) * |ts|
  {
    Percent(CompletedCount(ts), |ts|)
  }

  /** Half a percent rounds up (1 of 2 is 50), and the bar can read 100 while a
      task is still open (199 of 200). */
  lemma PercentExamples()
    ensures Percent(1, 2) == 50
    ensures Percent(1, 8) == 13
    ensures Percent(199, 200) == 100
  {
  }

  /** `updateOverdueIndicator`: some task is open and overdue, which is the
      overdue counter being positive. */
  function HasOverdue(ts: seq<Task>, today: int): (r: bool)
    ensures r <==> ComputeStats(ts, today).overdue > 0
    ensures r <==> FilterByType(ts, "overdue", today) != []
  {
    var r := exists i :: 0 <= i < |ts| && !ts[i].completed && IsOverdue(ts[i], today);
    var v := Seqs.Filter(ts, OverdueOn(today));
    assert v != [] ==> r by {
      if v != [] {
        assert v[0] in ts && OverdueOn(today)(v[0]);
        var k :| 0 <= k < |ts| && ts[k] == v[0];
      }
    }
    r
  }

  /** `checkAllTasksCompleted`: the list is non-empty and every task is done. */
  function AllCompleted(ts: seq<Task>): (r: bool)
    ensures r <==> |ts| > 0 && CompletedCount(ts) == |ts|
    ensures r ==> Progress(ts) == 100
  {
    Seqs.FilterFull(ts, IsCompleted);
    var r := |ts| > 0 && forall i :: 0 <= i < |ts| ==> ts[i].completed;
    if r then
      PercentAll(|ts|);
      r
    else r
  }

  lemma PercentAll(n: nat)
    requires n > 0
    ensures Percent(n, n) == 100
  {
    var r := Percent(n, n);
    assert 100 * (2 * n) < (r + 1) * (2 * n);
    MulCancel(2 * n, 100, r + 1);
  }

  // ---------------------------------------------------------------- sorting

  /** The rank the priority sort orders by. */
  function Rank(p: Priority): int {
    match p
    case High => 1
    case Medium => 2
    case Low => 3
  }

  predicate ByName(a: Task, b: Task) { Text.LexLe(a.text, b.text) }

  predicate ByPriority(a: Task, b: Task) { Rank(a.priority) <= Rank(b.priority) }

  predicate NewestFirst(a: Task, b: Task) { a.createdAt >= b.createdAt }

  /** The comparator the sort selector picks; 'date' and unknown values sort newest first. */
  function Ordering(sortBy: string): (Task, Task) -> bool {
    if sortBy == "name" then ByName
    else if sortBy == "priority" then ByPriority
    else NewestFirst
  }

  lemma OrderingIsPreorder(sortBy: string)
    ensures Sorting.TotalPreorder(Ordering(sortBy))
  {
    if sortBy == "name" {
      forall a: Task, b: Task
        ensures ByName(a, b) || ByName(b, a)
      {
        Text.LexLeTotal(a.text, b.text);
      }
      forall a: Task, b: Task, c: Task | ByName(a, b) && ByName(b, c)
        ensures ByName(a, c)
      {
        Text.LexLeTrans(a.text, b.text, c.text);
      }
    }
  }

  /** `sortTasks`: a stable sort of the list by the chosen order. */
  function SortTasks(ts: seq<Task>, sortBy: string): (r: seq<Task>)
    ensures multiset(r) == multiset(ts)
    ensures Sorting.SortedBy(Ordering(sortBy), r)
    ensures Sorting.StableFrom(Ordering(sortBy), ts, r)
    ensures sortBy == "priority" ==>
      forall i, j :: 0 <= i < j < |r| ==> Rank(r[i].priority) <= Rank(r[j].priority)
    ensures sortBy != "name" && sortBy != "priority" ==>
      forall i, j :: 0 <= i < j < |r| ==> r[i].createdAt >= r[j].createdAt
  {
    OrderingIsPreorder(sortBy);
    Sorting.SortByCorrect(Ordering(sortBy), ts);
    Sorting.SortBy(Ordering(sortBy), ts)
  }

  /** Sorting an already sorted list again changes nothing. */
  lemma SortTasksIdempotent(ts: seq<Task>, sortBy: string)
    ensures SortTasks(SortTasks(ts, sortBy), sortBy) == SortTasks(ts, sortBy)
  {
    Sorting.SortBySortedIsIdentity(Ordering(sortBy), SortTasks(ts, sortBy));
  }
}
