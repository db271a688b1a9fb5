/** Concrete walks through the store and the views: a first task added, a
    task due yesterday, the only task completed, a subtask added and ticked,
    and three priorities sorted step by step. */
module Scenarios {
  import opened Wrappers
  import opened Tasks
  import Text
  import Seqs
  import Queries
  import TaskStore
  import Sorting

  /** Adding "Buy milk" with low priority for a user with no list gives one open task. */
  lemma FirstTaskStats(s0: TaskStore.Store, user: string, id: int, now: int, today: int)
    requires user !in s0
    ensures TaskStore.AddTask(s0, user, id, "Buy milk", "", Low, "personal", None, now).Ok?
    ensures
      var s := TaskStore.AddTask(s0, user, id, "Buy milk", "", Low, "personal", None, now).value;
      Queries.ComputeStats(s[user], today) == Queries.Stats(1, 0, 1, 0)
  {
    Text.TrimEmptyIffBlank("Buy milk");
    assert !Text.IsSpace("Buy milk"[0]);
    var s: TaskStore.Store := TaskStore.AddTask(s0, user, id, "Buy milk", "", Low, "personal", None, now).value;
    var t := s[user][0];
    assert TaskStore.ListOf(s0, user) == [];
    assert s[user] == [t];
    OneOpenTaskStats(t, today);
  }

  /** A list holding one open, undated task: one task, none done, one pending, none overdue. */
  lemma OneOpenTaskStats(t: Task, today: int)
    requires !t.completed && t.due.None?
    ensures Queries.ComputeStats([t], today) == Queries.Stats(1, 0, 1, 0)
  {
    assert Seqs.Filter([t], Queries.IsCompleted) == [];
    assert Seqs.Filter([t], Queries.OverdueOn(today)) == [];
  }

  /** An open task due yesterday is the whole 'overdue' view and lights the indicator. */
  lemma DueYesterdayIsOverdue(t: Task, today: int)
    requires !t.completed && t.due == Some(today - 1)
    ensures Queries.FilterByType([t], "overdue", today) == [t]
    ensures Queries.HasOverdue([t], today)
  {
    assert Queries.OverdueOn(today)(t);
  }

  /** Toggling the only, still open, task completes the list; an empty list never counts as completed. */
  lemma ToggleOnlyTask(s: TaskStore.Store, user: string, t: Task, now: int)
    requires user in s && s[user] == [t] && !t.completed
    ensures TaskStore.ToggleTask(s, user, t.id, now).Ok?
    ensures Queries.AllCompleted(TaskStore.ToggleTask(s, user, t.id, now).value[user])
    ensures !Queries.AllCompleted([])
  {
    assert FindIndex(s[user], t.id) == Some(0);
  }

  /** Adding a subtask to a task without any and toggling it leaves one completed
      subtask with the same text, and the task's `updatedAt` as it was. */
  lemma AddThenToggleSubtask(s: TaskStore.Store, user: string, t: Task, text: string)
    requires user in s && s[user] == [t] && t.id != 0 && t.subtasks == [] && Text.Trim(text) != []
    ensures TaskStore.AddSubtask(s, user, t.id, text).Ok?
    ensures TaskStore.ToggleSubtask(TaskStore.AddSubtask(s, user, t.id, text).value, user, t.id, 0).Ok?
    ensures
      var s2 := TaskStore.ToggleSubtask(TaskStore.AddSubtask(s, user, t.id, text).value, user, t.id, 0).value;
      && s2[user][0].subtasks == [Subtask(Text.Trim(text), true)]
      && s2[user][0].updatedAt == t.updatedAt
  {
    assert FindIndex(s[user], t.id) == Some(0);
    var s1: TaskStore.Store := TaskStore.AddSubtask(s, user, t.id, text).value;
    assert FindIndex(s1[user], t.id) == Some(0);
  }

  /** Sorting medium, high, low by priority gives high, medium, low. */
  lemma SortByPriorityExample(m: Task, h: Task, l: Task)
    requires m.priority == Medium && h.priority == High && l.priority == Low
    ensures Queries.SortTasks([m, h, l], "priority") == [h, m, l]
  {
    InsertionSteps(m, h, l);
  }

  /** The insertion sort on medium, high, low: sort high, low, then insert medium. */
  lemma InsertionSteps(m: Task, h: Task, l: Task)
    requires m.priority == Medium && h.priority == High && l.priority == Low
    ensures Sorting.SortBy(Queries.ByPriority, [m, h, l]) == [h, m, l]
  {
    assert [m, h, l][1..] == [h, l];
    SortHighLow(h, l);
    InsertMedium(m, h, l);
  }

  /** High before low is already in order. */
  lemma SortHighLow(h: Task, l: Task)
    requires h.priority == High && l.priority == Low
    ensures Sorting.SortBy(Queries.ByPriority, [h, l]) == [h, l]
  {
    assert [h, l][1..] == [l];
    assert Sorting.SortBy(Queries.ByPriority, [l]) == [l];
  }

  /** Medium goes after high and before low. */
  lemma InsertMedium(m: Task, h: Task, l: Task)
    requires m.priority == Medium && h.priority == High && l.priority == Low
    ensures Sorting.Insert(Queries.ByPriority, m, [h, l]) == [h, m, l]
  {
    assert [h, l][1..] == [l];
    assert Sorting.Insert(Queries.ByPriority, m, [l]) == [m, l];
  }
}
