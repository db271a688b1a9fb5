# Task manager core, modelled in Dafny

This project models the logic inside the browser task manager's `TaskManager`
class (`script.js`). Page reads are replaced by parameters and the model is
pure functions over immutable data:

- **Task store.** The store is a map from username to that user's ordered
  task list. It has these handlers:
  - add a task (prepended);
  - edit the first task with an id;
  - toggle completion, which the complete and reopen buttons both use;
  - delete every task with an id;
  - append a subtask, and toggle a subtask by position;
  - stable sort by name, priority or creation time;
  - export, and import of a parsed array.
- **Query engine.** The query engine has these views:
  - case-insensitive search over title or description;
  - the `completed` / `pending` / `overdue` type filters, applied after the search;
  - overdue detection against today's day;
  - the statistics counters;
  - the progress percentage;
  - the overdue indicator;
  - the "all tasks completed" check.
- **Accounts.** Sign-up validation, and the first-match login lookup.
- **Dashboard.** The counters, progress bar and overdue indicator that each render refreshes, including the early return for an empty view, which leaves the bar and the indicator stale (see Findings).

Modules:

| file | module | contents |
|---|---|---|
| wrappers.dfy | `Wrappers` | `Option`, `Result` |
| seqs.dfy | `Seqs` | order-preserving `Filter`, the `Subseq` relation and their lemmas |
| text.dfy | `Text` | `trim`, `toLowerCase`, `includes`, lexicographic order |
| sorting.dfy | `Sorting` | a stable insertion sort over a total preorder, with its correctness proof |
| tasks.dfy | `Tasks` | `Task`, `Subtask`, `Priority`, and `FindIndex` (the `find` by id) |
| queries.dfy | `Queries` | search, type filters, overdue, statistics, progress, sort orders |
| store.dfy | `TaskStore` | the store and its handlers |
| accounts.dfy | `Accounts` | users, sign-up, log-in |
| dashboard.dfy | `Dashboard` | the counters, progress bar and overdue indicator that `renderTasks` refreshes |
| scenarios.dfy | `Scenarios` | concrete end-to-end walks through the model |

Representation choices:

- Due dates and "today" are integer day numbers.
- `createdAt`, `updatedAt` and the clock value are abstract integers.
- The task id is a parameter. It comes from `Date.now()` and is never checked
  for uniqueness, so the model does not claim that ids are unique.

Error handling:

- A handler that shows an error notification returns `Err`.
- A handler that silently does nothing returns `Ok` with the unchanged store.
- Some handlers read the user's list with no fallback: toggle, edit, delete
  and the two subtask handlers. If that list is absent, the JavaScript
  throws a `TypeError` before changing anything. The model returns
  `Err(NoTaskList)` for that case.

The model follows the code, including where it behaves unexpectedly:

- Ids are not unique.
- The subtask handlers do not refresh `updatedAt`.
- Adding a subtask to an unknown task id is silently ignored.
- Delete removes every task with the id, while edit and toggle act on the
  first one only.
- Import checks only that the parsed value is an array.
- "Complete" and "reopen" are the same flip.

## Model

| member | source | states |
|---|---|---|
| Text.Trim | script.js:127 | `trim` returns a contiguous slice with no white space at either end, and only white space was cut around it |
| Text.TrimEmptyIffBlank | script.js:214-216 | a title is refused exactly when it consists of white space only |
| Text.Contains | script.js:265-266 | `includes` holds exactly when the needle occurs at some position of the haystack |
| Tasks.FindIndex | script.js:547-548 | `find` by id yields the first position carrying the id, and yields nothing only when no task carries it |
| Queries.OverdueBoundary | script.js:348-354 | a task due today is not overdue, one due yesterday and still open is, and a completed or undated task never is |
| Queries.OverdueIsPermanent | script.js:348-354 | an open task that is overdue on one day is overdue on every later day |
| Queries.Search | script.js:261-268 | search is an order-preserving subsequence that keeps exactly the tasks whose lower-cased title or description contains the lower-cased query, each matching task as many times as it occurs in the list and a non-matching one never |
| Queries.EmptySearchIsIdentity | script.js:262-268 | an empty query shows the whole list, and filtering by the empty string would also keep every task |
| Queries.FilterByType | script.js:335-346 | each type filter is an order-preserving subsequence that keeps exactly the completed, pending or overdue tasks, each kept task as many times as it occurs in the list; any other filter name is the identity |
| Queries.CompletedPendingPartition | script.js:337-340 | the completed and pending views partition the list, both by count and as multisets |
| Queries.OverdueWithinPending | script.js:339-342 | the overdue view is a subsequence of the pending view |
| Queries.View | script.js:259-271 | the rendered list is a subsequence both of the user's list and of its type-filtered view, and holds each task that matches the query and passes the type filter exactly as often as the list does, and no other task |
| Queries.ViewCommutes | script.js:261-271 | applying the type filter before or after the search gives the same list, which is the list filtered once by "matches the query and passes the type filter" |
| Queries.ComputeStats | script.js:626-630 | pending, computed as total minus completed, equals the length of the pending view; each counter equals the length of its view; overdue never exceeds pending |
| Queries.CompletedCountUpdate | script.js:627-628 | replacing one task changes the completed count by exactly the change in that task's flag |
| Queries.Percent | script.js:642 | the percentage is in 0..100, is 0 for an empty list, and is the whole number nearest to 100·completed/total, with halves rounded up |
| Queries.Progress | script.js:638-642 | the value `updateProgress` computes is within 0..100, 0 for no tasks, and the rounded completed share (when the bar shows it, see `Dashboard`) |
| Queries.PercentExamples | script.js:642 | 1 of 2 reads 50, 1 of 8 reads 13, and 199 of 200 already reads 100 |
| Queries.HasOverdue | script.js:648-650 | the value `updateOverdueIndicator` computes holds exactly when the overdue counter is positive, that is, when the overdue view is non-empty |
| Queries.AllCompleted | script.js:572-574 | the test `checkAllTasksCompleted` makes holds exactly when the list is non-empty and every task is counted as completed, and it implies that `updateProgress` computes 100 |
| Queries.OrderingIsPreorder | script.js:606-617 | each comparator the sort selector picks is total and transitive |
| Queries.SortTasks | script.js:603-618 | the sorted list is a permutation of the input, ordered by the chosen key, with ties kept in input order |
| Queries.SortTasksIdempotent | script.js:603-621 | sorting a sorted list again changes nothing |
| Sorting.SortByCorrect | script.js:608-616 | the insertion sort is a stable sort: a permutation, sorted, and each group of ties keeps its order |
| Sorting.SortBySortedIsIdentity | script.js:608-616 | an input already in order comes back unchanged |
| TaskStore.AddTask | script.js:214-238 | a blank title is refused; otherwise exactly one open task with no subtasks and the trimmed fields is put in front of the user's unchanged list (created if absent), and no other user's list changes |
| TaskStore.EditTask | script.js:501-521 | with no task being edited or the falsy id 0 nothing happens; on the first task with the id, a blank title is refused; otherwise the editable fields are replaced and `updatedAt` refreshed, while id, creation time, completion and subtasks are kept and every other task and user is untouched |
| TaskStore.EditKeepsIdsAndCount | script.js:505-519 | a successful edit keeps the list's length, the position `find` gives for every id, and the completed count |
| TaskStore.EditTwice | script.js:505-519 | saving the same fields twice equals saving them once at the later time |
| TaskStore.ToggleTask | script.js:546-552 | the first task with the id has its completion flipped and `updatedAt` refreshed; nothing else changes; an unknown id changes nothing |
| TaskStore.CompleteTask | script.js:528-532 | with a task open under a non-zero id, "complete" is exactly the toggle of that id, so it flips the flag rather than setting it; with no open task or id 0 nothing changes |
| TaskStore.ReopenTask | script.js:534-538 | "reopen" is the very same operation as "complete" |
| TaskStore.ToggleTwice | script.js:549-551 | toggling twice restores the store except for the task's later `updatedAt` |
| TaskStore.ToggleMovesOneTask | script.js:549-550 | a toggle moves exactly one task between the completed and pending counts |
| TaskStore.DeleteTask | script.js:582-585 | a confirmed delete leaves a subsequence of the list with no task carrying the id and every other task as many times as before, and no other user's list changes; declining changes nothing; an absent list is the `TypeError` |
| TaskStore.DeleteFromView | script.js:540-544 | deleting from the detail view is the delete of the open task's id; with no open task or id 0 nothing changes |
| TaskStore.DeleteIdempotent | script.js:584 | deleting twice is the same as deleting once |
| TaskStore.AddThenDelete | script.js:584 | deleting a freshly added task whose id was new gives the previous list back |
| TaskStore.AddSubtask | script.js:421-441 | blank text, or the falsy id 0 of the open task, is refused; otherwise exactly one open subtask is appended to the first task with the id, with its other fields (including `updatedAt`) unchanged; an unknown id changes nothing |
| TaskStore.AddSubtaskKeepsStats | script.js:431-441 | a successful subtask addition keeps the position `find` gives for every id and leaves the four counters unchanged |
| TaskStore.ToggleSubtask | script.js:450-456 | only the subtask at an in-range index has its flag flipped; its text, the other subtasks and the task's `updatedAt` stay; an unknown id or a bad index changes nothing |
| TaskStore.ToggleSubtaskTwice | script.js:454-455 | toggling the same subtask twice gives back the original store |
| TaskStore.SortStore | script.js:603-621 | the user's list is replaced by its stable sort (an absent list becomes empty), and no other user's list changes |
| TaskStore.ImportTasks | script.js:689-706 | with no file chosen nothing changes; an array replaces the user's list and nothing else; any other value or a parse failure is refused |
| TaskStore.ExportTasks | script.js:663-669 | export yields the user's list exactly, and is refused when it is empty |
| TaskStore.ExportImportRoundTrip | script.js:695-697 | importing an exported list restores it, and leaves the store it came from unchanged |
| Accounts.FindUser | script.js:142 | `find` over users yields the first matching position, and yields nothing only when no user matches |
| Accounts.Signup | script.js:125-153 | the checks run in order (username length, password length, taken username, taken email) and the first failure is reported; otherwise exactly one user is appended |
| Accounts.SignupKeepsDistinct | script.js:142-153 | a successful sign-up keeps usernames and emails pairwise distinct |
| Accounts.Login | script.js:163-166 | login finds the first user with the trimmed username and the password as typed, and finds nothing exactly when no user has both |
| Accounts.SignupThenLogin | script.js:152-166 | right after a sign-up, logging in with the same username and password finds the new account |
| Scenarios.FirstTaskStats | script.js:214-238 | one task added for a user without a list gives the counters 1, 0, 1, 0 |
| Scenarios.DueYesterdayIsOverdue | script.js:341-342 | an open task due yesterday is the whole overdue view and lights the indicator |
| Scenarios.ToggleOnlyTask | script.js:572-574 | completing the only task completes the list, while an empty list never does |
| Scenarios.AddThenToggleSubtask | script.js:438-455 | adding then toggling a subtask leaves one completed subtask with the same text and the task's `updatedAt` unchanged |
| Dashboard.StaleBarAfterLastDelete | script.js:273-282 | as written, deleting the only task, a completed one, leaves the bar at 100% over an empty list, where the progress of an empty list is 0 |
| Dashboard.StaleBarWithConfetti | script.js:273-282 | as written, under the 'pending' filter, completing the last open task of two leaves the bar at 50% while every task is completed |
| Dashboard.RenderAsWritten | script.js:271-332 | as written, a render always refreshes the counters from the whole list; the bar and the indicator are refreshed from the whole list only when the filtered view is non-empty, and otherwise keep what they showed |
| Dashboard.Render | script.js:271-332 | with the refresh on both paths, the counters are those of the whole list, the bar is the whole percentage nearest to the completed share (0 for an empty list, 100 when all tasks are completed), and the indicator is lit exactly when some task in the list is overdue, which is the overdue counter being positive |
| Dashboard.AsWrittenAgreesWhenShown | script.js:273-332 | whenever the filtered view shows some task, the render as written and the corrected one give the same panel |
| Scenarios.SortByPriorityExample | script.js:610-612 | medium, high, low sorts to high, medium, low |

## Left out

- The task list's markup, event wiring, modals, notifications, confetti, theme switching, `formatDate`, `logout` and `checkLoginStatus`: these are presentation only.
- `localStorage` persistence: the in-memory map is the persisted state.
- `FileReader`, `Blob`, the download link, and `JSON.parse` / `JSON.stringify` are library calls and I/O. Import receives what the file dialog and `JSON.parse` produced: no file, an array of tasks, another value, or a parse failure. The source does not check the records inside an array, and the model's array already holds tasks.
- `Date.now()`, `new Date()` and `toLocaleString()` read the clock: ids, timestamps and today's day are parameters.
- The date sort compares parsed locale strings; the model compares abstract `createdAt` integers.
- The UTC-versus-local-midnight quirk of `new Date('YYYY-MM-DD')` is not modelled; due dates are plain day numbers.
- `Queries.Ordering`: `localeCompare` is locale-dependent; the name sort uses lexicographic code-point order instead. That order is total, while a locale's collation is only a total preorder: distinct strings it deems equivalent compare as ties and keep their input order.
- `Queries.Percent`: computed in integers as `(200·completed + total) / (2·total)`, not in floating point, so a product that floating point rounds just below a half is not reproduced.
- `Text.ToLower`: lower-cases only `A`–`Z`; the full Unicode case mapping of `toLowerCase` (including mappings that change the length) is not modelled.
- `Accounts.Signup`: lengths count Unicode scalar values, whereas JavaScript counts UTF-16 code units; the two differ only for characters outside the Basic Multilingual Plane.
- Priorities are the three selector values; a priority outside them, possible only through import, would make the source's comparator return `NaN` and is not representable.
- The ids of the open detail and edit views (`currentModalTaskId`, `currentEditTaskId`) are parameters. `completeTask`, `reopenTask` and `deleteTaskModal` take them as an optional id, where `None` is no open view. `addSubtask` and `saveEditTask` take the id directly, and the value 0 stands for no open view. Id 0 fails the guards' truthiness test just as no open view does: `addSubtask` then reports the blank-text error, and the others do nothing.
- `confirm()` in `deleteTask` is the boolean `confirmed`.
- `TaskStore.AddTask`: a username that names a property every JavaScript object inherits (`constructor`, `toString`, `__proto__` and the like) makes `this.tasks[user]` an inherited value instead of `undefined`, so `unshift` throws; the model keys a map by the name and adds the task. Plain-object property lookup is not modelled.
- `TaskStore.SortStore`: for the same usernames `this.tasks[user] || []` is the inherited value and `sort` throws; the model sorts an empty list.
- `TaskStore.CompleteTask`: for the same usernames without a list of their own, `toggleTask` finds an inherited value with no `find` method and throws. That agrees with the model's `Err(NoTaskList)`. The exception is `__proto__`: an import for that name replaces the object's prototype instead of storing a list, and the model does not reproduce this.
- Handlers run only with a user logged in, so `currentUser` is the `user` parameter and is never absent.

## Findings

| source | as written | input that shows it | evidently intended | confidence | as-written member | corrected member |
|---|---|---|---|---|---|---|
| script.js:273-282 | when the filtered view is empty, `renderTasks` refreshes only the counters and returns before `updateProgress` and `updateOverdueIndicator` | a user whose only task is completed deletes it: the list is empty and the bar still reads 100% | the bar and the indicator describe the whole list after every render, as the counters already do | high, not executed | Dashboard.StaleBarAfterLastDelete | Dashboard.Render |
