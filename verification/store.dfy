/** The task store: every user's task list, keyed by username, and the
    handlers that change the current user's list. A handler that shows an
    error notification returns `Err`; one that silently does nothing returns
    the store unchanged. */
module TaskStore {
  import opened Wrappers
  import opened Tasks
  import Text
  import Seqs
  import Sorting
  import Queries

  /** Each user's task list, keyed by username. */
  type Store = map<string, seq<Task>>

  datatype Failure =
    | EmptyTitle        // the task title is blank after trimming
    | EmptySubtaskText  // the subtask text is blank after trimming
    | NoTaskList        // the handler reads the user's absent list and throws a TypeError
    | InvalidFormat     // the imported value is not an array
    | ImportFailed      // the imported text does not parse
    | NothingToExport   // the user has no tasks

  /** The user's list, or the empty list the handlers fall back to. */
  function ListOf(s: Store, user: string): seq<Task> {
    if user in s then s[user] else []
  }

  /** `s2` holds a list for `user` and agrees with `s` on every other user. */
  ghost predicate OnlyListOf(s: Store, s2: Store, user: string) {
    user in s2 && s2 == s[user := s2[user]]
  }

  /** `us` is `ts` with at most the task at position `i` replaced. */
  ghost predicate OnlyAt(ts: seq<Task>, us: seq<Task>, i: int) {
    && |us| == |ts|
    && 0 <= i < |ts|
    && forall j :: 0 <= j < |ts| && j != i ==> us[j] == ts[j]
  }

  /** Replacing the one list that changed undoes the change for every other user too. */
  lemma ReplaceList(s: Store, s1: Store, user: string, ts: seq<Task>)
    requires OnlyListOf(s, s1, user)
    ensures s1[user := ts] == s[user := ts]
  {
  }

  /** Overwriting the one position that changed undoes the change at every other position too. */
  lemma ReplaceAt(ts: seq<Task>, us: seq<Task>, i: int, t: Task)
    requires OnlyAt(ts, us, i)
    ensures us[i := t] == ts[i := t]
  {
  }

  // ---------------------------------------------------------------- create

  /** `addTask`: a blank title is refused; otherwise a new open task with no
      subtasks goes to the front of the user's list, which is created when
      the user has none. The id is whatever the clock gave: it is not checked
      against the ids already present. */
  function AddTask(s: Store, user: string, id: int, title: string, description: string,
                   priority: Priority, category: string, due: Option<int>, now: int)
    : (r: Result<Store, Failure>)
    ensures r.Err? <==> Text.Trim(title) == []
    ensures r.Err? ==> r.error == EmptyTitle
    ensures r.Ok? ==>
      && OnlyListOf(s, r.value, user)
      && |r.value[user]| == |ListOf(s, user)| + 1
      && r.value[user][1..] == ListOf(s, user)
    ensures r.Ok? ==>
      var t := r.value[user][0];
      && t.id == id && t.text == Text.Trim(title) && t.description == Text.Trim(description)
      && t.priority == priority && t.category == category && t.due == due
      && !t.completed && t.createdAt == now && t.updatedAt == now && t.subtasks == []
  {
    var text := Text.Trim(title);
    if text == [] then Err(EmptyTitle)
    else
      var t := Task(id, text, Text.Trim(description), priority, category, due, false, now, now, []);
      Ok(s[user := [t] + ListOf(s, user)])
  }

  // ---------------------------------------------------------------- edit

  /** `saveEditTask`: edits the first task with the id of the task open in
      the edit dialog; the falsy id 0 makes it return at once. A blank title
      is refused; otherwise text, description, priority, category and due day
      are replaced and `updatedAt` is refreshed, while id, creation time,
      completion and subtasks are kept. */
  function EditTask(s: Store, user: string, id: int, title: string, description: string,
                    priority: Priority, category: string, due: Option<int>, now: int)
    : (r: Result<Store, Failure>)
    ensures id == 0 ==> r == Ok(s)
    ensures id != 0 && user !in s ==> r == Err(NoTaskList)
    ensures id != 0 && user in s && FindIndex(s[user], id).None? ==> r == Ok(s)
    ensures id != 0 && user in s && FindIndex(s[user], id).Some? && Text.Trim(title) == [] ==> r == Err(EmptyTitle)
    ensures id != 0 && user in s && FindIndex(s[user], id).Some? && Text.Trim(title) != [] ==>
      var i := FindIndex(s[user], id).value;
      var t := s[user][i];
      && r.Ok? && OnlyListOf(s, r.value, user) && OnlyAt(s[user], r.value[user], i)
      && var e := r.value[user][i];
      && e.id == t.id && e.createdAt == t.createdAt && e.completed == t.completed
      && e.subtasks == t.subtasks
      && e.text == Text.Trim(title) && e.description == Text.Trim(description)
      && e.priority == priority && e.category == category && e.due == due && e.updatedAt == now
  {
    if id == 0 then Ok(s)
    else if user !in s then Err(NoTaskList)
    else
      match FindIndex(s[user], id)
      case None => Ok(s)
      case Some(i) =>
        var text := Text.Trim(title);
        if text == [] then Err(EmptyTitle)
        else
          var t := s[user][i];
          var e := t.(text := text, description := Text.Trim(description), priority := priority,
                      category := category, due := due, updatedAt := now);
          Ok(s[user := s[user][i := e]])
  }

  /** An edit never touches ids or completion: `find` by any id gives the
      same position afterwards, and the completed count does not move. */
  lemma EditKeepsIdsAndCount(s: Store, user: string, id: int, title: string, description: string,
                             priority: Priority, category: string, due: Option<int>, now: int, x: int)
    requires user in s
    requires EditTask(s, user, id, title, description, priority, category, due, now).Ok?
    ensures
      var s2 := EditTask(s, user, id, title, description, priority, category, due, now).value;
      && user in s2 && |s2[user]| == |s[user]|
      && FindIndex(s2[user], x) == FindIndex(s[user], x)
      && Queries.CompletedCount(s2[user]) == Queries.CompletedCount(s[user])
  {
    var s2 := EditTask(s, user, id, title, description, priority, category, due, now).value;
    if id != 0 && FindIndex(s[user], id).Some? {
      var i := FindIndex(s[user], id).value;
      FindIndexKeepsIds(s[user], s2[user], x);
      assert s2[user] == s[user][i := s2[user][i]];
      Queries.CompletedCountUpdate(s[user], i, s2[user][i]);
    }
  }

  /** Saving the same fields twice is saving them once, at the later time. */
  lemma EditTwice(s: Store, user: string, id: int, title: string, description: string,
                  priority: Priority, category: string, due: Option<int>, now1: int, now2: int)
    requires EditTask(s, user, id, title, description, priority, category, due, now1).Ok?
    ensures
      var s1 := EditTask(s, user, id, title, description, priority, category, due, now1).value;
      EditTask(s1, user, id, title, description, priority, category, due, now2)
        == EditTask(s, user, id, title, description, priority, category, due, now2)
  {
    var s1 := EditTask(s, user, id, title, description, priority, category, due, now1).value;
    if id != 0 && FindIndex(s[user], id).Some? {
      var i := FindIndex(s[user], id).value;
      FindIndexKeepsIds(s[user], s1[user], id);
      var e := s[user][i].(text := Text.Trim(title), description := Text.Trim(description),
                           priority := priority, category := category, due := due, updatedAt := now2);
      assert s1[user][i].(text := Text.Trim(title), description := Text.Trim(description),
                          priority := priority, category := category, due := due, updatedAt := now2) == e;
      ReplaceAt(s[user], s1[user], i, e);
      ReplaceList(s, s1, user, s[user][i := e]);
    }
  }

  // ---------------------------------------------------------------- completion

  /** `toggleTask`: flips the completion of the first task with the id and
      refreshes its `updatedAt`; nothing else changes. */
  function ToggleTask(s: Store, user: string, id: int, now: int): (r: Result<Store, Failure>)
    ensures user !in s ==> r == Err(NoTaskList)
    ensures user in s && FindIndex(s[user], id).None? ==> r == Ok(s)
    ensures user in s && FindIndex(s[user], id).Some? ==>
      var i := FindIndex(s[user], id).value;
      var t := s[user][i];
      && r.Ok? && OnlyListOf(s, r.value, user) && OnlyAt(s[user], r.value[user], i)
      && r.value[user][i].completed == !t.completed
      && r.value[user][i] == t.(completed := !t.completed, updatedAt := now)
  {
    if user !in s then Err(NoTaskList)
    else
      match FindIndex(s[user], id)
      case None => Ok(s)
      case Some(i) =>
        var t := s[user][i];
        Ok(s[user := s[user][i := t.(completed := !t.completed, updatedAt := now)]])
  }

  /** `completeTask`, for the task open in the detail view: despite its name
      it flips the flag, so on a completed task it reopens it. Without an
      open task, or with the falsy id 0, nothing happens. */
  function CompleteTask(s: Store, user: string, openTask: Option<int>, now: int): (r: Result<Store, Failure>)
    ensures !IsOpen(openTask) ==> r == Ok(s)
    ensures IsOpen(openTask) ==> r == ToggleTask(s, user, openTask.value, now)
    ensures IsOpen(openTask) && user in s && FindIndex(s[user], openTask.value).Some? ==>
      var i := FindIndex(s[user], openTask.value).value;
      && r.Ok? && OnlyListOf(s, r.value, user) && OnlyAt(s[user], r.value[user], i)
      && r.value[user][i].completed == !s[user][i].completed
  {
    if IsOpen(openTask) then ToggleTask(s, user, openTask.value, now) else Ok(s)
  }

  /** `reopenTask`: the same flip as `completeTask`. */
  function ReopenTask(s: Store, user: string, openTask: Option<int>, now: int): (r: Result<Store, Failure>)
    ensures r == CompleteTask(s, user, openTask, now)
  {
    if IsOpen(openTask) then ToggleTask(s, user, openTask.value, now) else Ok(s)
  }

  /** Toggling the same task twice restores it, except that `updatedAt` keeps the later time. */
  lemma ToggleTwice(s: Store, user: string, id: int, now1: int, now2: int)
    requires user in s && FindIndex(s[user], id).Some?
    ensures ToggleTask(s, user, id, now1).Ok?
    ensures
      var i := FindIndex(s[user], id).value;
      ToggleTask(ToggleTask(s, user, id, now1).value, user, id, now2)
        == Ok(s[user := s[user][i := s[user][i].(updatedAt := now2)]])
  {
    var i := FindIndex(s[user], id).value;
    var t := s[user][i];
    var s1 := ToggleTask(s, user, id, now1).value;
    FindIndexKeepsIds(s[user], s1[user], id);
    var t1 := s1[user][i];
    var t2 := t1.(completed := !t1.completed, updatedAt := now2);
    assert t2 == t.(updatedAt := now2);
    assert ToggleTask(s1, user, id, now2) == Ok(s1[user := s1[user][i := t2]]);
    ReplaceAt(s[user], s1[user], i, t2);
    ReplaceList(s, s1, user, s[user][i := t2]);
  }

  /** Toggling moves exactly one task between the completed and pending counts. */
  lemma ToggleMovesOneTask(s: Store, user: string, id: int, now: int)
    requires user in s && FindIndex(s[user], id).Some?
    ensures ToggleTask(s, user, id, now).Ok?
    ensures
      var i := FindIndex(s[user], id).value;
      var after := Queries.CompletedCount(ToggleTask(s, user, id, now).value[user]);
      if s[user][i].completed then after + 1 == Queries.CompletedCount(s[user])
      else after == Queries.CompletedCount(s[user]) + 1
  {
    var i := FindIndex(s[user], id).value;
    var t := s[user][i];
    Queries.CompletedCountUpdate(s[user], i, t.(completed := !t.completed, updatedAt := now));
  }

  // ---------------------------------------------------------------- delete

  function WithoutId(id: int): Task -> bool {
    (t: Task) => t.id != id
  }

  /** `deleteTask`, once the user confirmed: removes every task with the id
      (not just the first) and keeps the others in their order. A declined
      confirmation changes nothing. */
  function DeleteTask(s: Store, user: string, id: int, confirmed: bool): (r: Result<Store, Failure>)
    ensures !confirmed ==> r == Ok(s)
    ensures confirmed && user !in s ==> r == Err(NoTaskList)
    ensures confirmed && user in s ==>
      && r.Ok? && OnlyListOf(s, r.value, user)
      && Seqs.Subseq(r.value[user], s[user])
      && (forall j :: 0 <= j < |r.value[user]| ==> r.value[user][j].id != id)
      && (forall j :: 0 <= j < |s[user]| && s[user][j].id != id ==> s[user][j] in r.value[user])
    ensures confirmed && user in s ==>
      forall t :: multiset(r.value[user])[t] == if t.id == id then 0 else multiset(s[user])[t]
  {
    if !confirmed then Ok(s)
    else if user !in s then Err(NoTaskList)
    else
      Seqs.FilterCount(s[user], WithoutId(id));
      Ok(s[user := Seqs.Filter(s[user], WithoutId(id))])
  }

  /** `deleteTaskModal`, for the task open in the detail view: the confirmed
      delete of its id. Without an open task, or with the falsy id 0, nothing
      happens, although the list's own delete button removes id 0. */
  function DeleteFromView(s: Store, user: string, openTask: Option<int>, confirmed: bool)
    : (r: Result<Store, Failure>)
    ensures !IsOpen(openTask) ==> r == Ok(s)
    ensures IsOpen(openTask) ==> r == DeleteTask(s, user, openTask.value, confirmed)
    ensures IsOpen(openTask) && confirmed && user in s ==>
      r.Ok? && forall t :: t in r.value[user] ==> t.id != openTask.value
  {
    if IsOpen(openTask) then DeleteTask(s, user, openTask.value, confirmed) else Ok(s)
  }

  /** Deleting twice is deleting once. */
  lemma DeleteIdempotent(s: Store, user: string, id: int)
    requires user in s
    ensures DeleteTask(s, user, id, true).Ok?
    ensures
      var s1 := DeleteTask(s, user, id, true).value;
      DeleteTask(s1, user, id, true) == Ok(s1)
  {
    var s1 := DeleteTask(s, user, id, true).value;
    Seqs.FilterIdempotent(s[user], WithoutId(id));
    assert s1[user := Seqs.Filter(s1[user], WithoutId(id))] == s1;
  }

  /** Deleting a freshly added task, whose id no other task had, gives the list back. */
  lemma AddThenDelete(s: Store, user: string, id: int, title: string, description: string,
                      priority: Priority, category: string, due: Option<int>, now: int)
    requires Text.Trim(title) != []
    requires forall j :: 0 <= j < |ListOf(s, user)| ==> ListOf(s, user)[j].id != id
    ensures AddTask(s, user, id, title, description, priority, category, due, now).Ok?
    ensures
      var s1 := AddTask(s, user, id, title, description, priority, category, due, now).value;
      DeleteTask(s1, user, id, true) == Ok(s[user := ListOf(s, user)])
  {
    var before := ListOf(s, user);
    var s1 := AddTask(s, user, id, title, description, priority, category, due, now).value;
    var added := s1[user];
    assert added == [added[0]] + before;
    DeleteFreshHead(added[0], before, id);
    ReplaceList(s, s1, user, before);
  }

  /** Removing a fresh id from a list that gained one task with it in front gives the list back. */
  lemma DeleteFreshHead(t: Task, before: seq<Task>, id: int)
    requires t.id == id
    requires forall j :: 0 <= j < |before| ==> before[j].id != id
    ensures Seqs.Filter([t] + before, WithoutId(id)) == before
  {
    Seqs.FilterCons(t, before, WithoutId(id));
    Seqs.FilterAll(before, WithoutId(id));
  }

  // ---------------------------------------------------------------- subtasks

  /** `addSubtask`: blank text, or the falsy id 0 for the open task, is
      refused with the same message; otherwise an open subtask with the
      trimmed text is appended to the first task with the id. The task's
      `updatedAt` is left as it was. An unknown id changes nothing. */
  function AddSubtask(s: Store, user: string, id: int, text: string): (r: Result<Store, Failure>)
    ensures Text.Trim(text) == [] || id == 0 ==> r == Err(EmptySubtaskText)
    ensures Text.Trim(text) != [] && id != 0 && user !in s ==> r == Err(NoTaskList)
    ensures Text.Trim(text) != [] && id != 0 && user in s && FindIndex(s[user], id).None? ==> r == Ok(s)
    ensures Text.Trim(text) != [] && id != 0 && user in s && FindIndex(s[user], id).Some? ==>
      var i := FindIndex(s[user], id).value;
      var t := s[user][i];
      && r.Ok? && OnlyListOf(s, r.value, user) && OnlyAt(s[user], r.value[user], i)
      && var e := r.value[user][i];
      && |e.subtasks| == |t.subtasks| + 1
      && e.subtasks[..|t.subtasks|] == t.subtasks
      && e.subtasks[|t.subtasks|] == Subtask(Text.Trim(text), false)
      && e == t.(subtasks := e.subtasks)
  {
    var item := Text.Trim(text);
    if item == [] || id == 0 then Err(EmptySubtaskText)
    else if user !in s then Err(NoTaskList)
    else
      match FindIndex(s[user], id)
      case None => Ok(s)
      case Some(i) =>
        var t := s[user][i];
        Ok(s[user := s[user][i := t.(subtasks := t.subtasks + [Subtask(item, false)])]])
  }

  /** A new subtask changes neither ids, completion nor due days: `find` by
      any id gives the same position, and the statistics stay as they were. */
  lemma AddSubtaskKeepsStats(s: Store, user: string, id: int, text: string, x: int, today: int)
    requires user in s
    requires AddSubtask(s, user, id, text).Ok?
    ensures
      var s2 := AddSubtask(s, user, id, text).value;
      && user in s2
      && FindIndex(s2[user], x) == FindIndex(s[user], x)
      && Queries.ComputeStats(s2[user], today) == Queries.ComputeStats(s[user], today)
  {
    var s2 := AddSubtask(s, user, id, text).value;
    if FindIndex(s[user], id).Some? {
      var i := FindIndex(s[user], id).value;
      var e := s2[user][i];
      FindIndexKeepsIds(s[user], s2[user], x);
      assert s2[user] == s[user][i := e];
      Queries.CompletedCountUpdate(s[user], i, e);
      Seqs.FilterLengthUpdate(s[user], i, e, Queries.OverdueOn(today));
    }
  }

  /** `toggleSubtask`: flips the completion of the subtask at `index` of the
      first task with the id, keeping its text, the other subtasks and the
      task's `updatedAt`. An unknown id or an index out of range changes nothing. */
  function ToggleSubtask(s: Store, user: string, id: int, index: int): (r: Result<Store, Failure>)
    ensures user !in s ==> r == Err(NoTaskList)
    ensures user in s && FindIndex(s[user], id).None? ==> r == Ok(s)
    ensures user in s && FindIndex(s[user], id).Some?
            && !(0 <= index < |s[user][FindIndex(s[user], id).value].subtasks|)
            ==> r == Ok(s)
    ensures user in s && FindIndex(s[user], id).Some?
            && 0 <= index < |s[user][FindIndex(s[user], id).value].subtasks| ==>
      var i := FindIndex(s[user], id).value;
      var t := s[user][i];
      && r.Ok? && OnlyListOf(s, r.value, user) && OnlyAt(s[user], r.value[user], i)
      && var e := r.value[user][i];
      && e == t.(subtasks := e.subtasks)
      && |e.subtasks| == |t.subtasks|
      && e.subtasks[index].text == t.subtasks[index].text
      && e.subtasks[index].completed == !t.subtasks[index].completed
      && forall k :: 0 <= k < |t.subtasks| && k != index ==> e.subtasks[k] == t.subtasks[k]
  {
    if user !in s then Err(NoTaskList)
    else
      match FindIndex(s[user], id)
      case None => Ok(s)
      case Some(i) =>
        var t := s[user][i];
        if 0 <= index < |t.subtasks| then
          var sub := t.subtasks[index];
          var e := t.(subtasks := t.subtasks[index := sub.(completed := !sub.completed)]);
          Ok(s[user := s[user][i := e]])
        else Ok(s)
  }

  /** Toggling the same subtask twice gives back exactly the store it started from. */
  lemma ToggleSubtaskTwice(s: Store, user: string, id: int, index: int)
    requires user in s
    ensures ToggleSubtask(s, user, id, index).Ok?
    ensures ToggleSubtask(ToggleSubtask(s, user, id, index).value, user, id, index) == Ok(s)
  {
    var s1 := ToggleSubtask(s, user, id, index).value;
    if FindIndex(s[user], id).Some? {
      var i := FindIndex(s[user], id).value;
      var t := s[user][i];
      if 0 <= index < |t.subtasks| {
        FindIndexKeepsIds(s[user], s1[user], id);
        var t1 := s1[user][i];
        var sub1 := t1.subtasks[index];
        assert t1.subtasks[index := sub1.(completed := !sub1.completed)] == t.subtasks;
        assert t1.(subtasks := t.subtasks) == t;
        assert s1[user][i := t] == s[user];
        assert s1[user := s[user]] == s;
      }
    }
  }

  // ---------------------------------------------------------------- sort

  /** `sortTasks`: the user's list is replaced by its stable sort; a user
      without a list is given an empty one. */
  function SortStore(s: Store, user: string, sortBy: string): (r: Store)
    ensures OnlyListOf(s, r, user)
    ensures multiset(r[user]) == multiset(ListOf(s, user))
    ensures Sorting.SortedBy(Queries.Ordering(sortBy), r[user])
    ensures Sorting.StableFrom(Queries.Ordering(sortBy), ListOf(s, user), r[user])
  {
    s[user := Queries.SortTasks(ListOf(s, user), sortBy)]
  }

  // ---------------------------------------------------------------- import and export

  /** What the import handler has in hand: no file chosen, or the result of
      `JSON.parse` on the file's text. */
  datatype Parsed = NoFile | ParsedArray(items: seq<Task>) | ParsedOther | Unparseable

  /** `importTasks`: with no file chosen nothing happens; an array replaces the
      user's list wholesale; anything else is refused and the store is left alone. */
  function ImportTasks(s: Store, user: string, p: Parsed): (r: Result<Store, Failure>)
    ensures r.Ok? <==> p.NoFile? || p.ParsedArray?
    ensures p.NoFile? ==> r == Ok(s)
    ensures p.ParsedArray? ==> r.Ok? && OnlyListOf(s, r.value, user) && r.value[user] == p.items
    ensures p.ParsedOther? ==> r == Err(InvalidFormat)
    ensures p.Unparseable? ==> r == Err(ImportFailed)
  {
    match p
    case NoFile => Ok(s)
    case ParsedArray(items) => Ok(s[user := items])
    case ParsedOther => Err(InvalidFormat)
    case Unparseable => Err(ImportFailed)
  }

  /** `exportTasks`: the user's list as it is, refused when there is nothing in it. */
  function ExportTasks(s: Store, user: string): (r: Result<seq<Task>, Failure>)
    ensures r.Err? <==> ListOf(s, user) == []
    ensures r.Err? ==> r.error == NothingToExport
    ensures r.Ok? ==> user in s && r.value == s[user]
  {
    var ts := ListOf(s, user);
    if ts == [] then Err(NothingToExport) else Ok(ts)
  }

  /** Importing what was exported, once parsed back as an array, restores the
      user's list into any store and changes nothing in the store it came from. */
  lemma ExportImportRoundTrip(s: Store, other: Store, user: string)
    requires ExportTasks(s, user).Ok?
    ensures ImportTasks(s, user, ParsedArray(ExportTasks(s, user).value)) == Ok(s)
    ensures ImportTasks(other, user, ParsedArray(ExportTasks(s, user).value)) == Ok(other[user := s[user]])
  {
    assert s[user := s[user]] == s;
  }
}
