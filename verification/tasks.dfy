/** The records a user's task list is made of. */
module Tasks {
  import opened Wrappers

  /** The three values of the priority selector. */
  datatype Priority = High | Medium | Low

  /** A checklist item inside a task; it has no identity but its position. */
  datatype Subtask = Subtask(text: string, completed: bool)

  /** A task. `due` is a day number (None for an empty date field);
      `createdAt` and `updatedAt` are abstract timestamps. */
  datatype Task = Task(
    id: int,
    text: string,
    description: string,
    priority: Priority,
    category: string,
    due: Option<int>,
    completed: bool,
    createdAt: int,
    updatedAt: int,
    subtasks: seq<Subtask>)

  /** Whether the id of the task open in a dialog passes the handlers'
      `if (id)` guard: no open dialog (`null`) and the falsy id 0 do not. */
  predicate IsOpen(openTask: Option<int>) {
    openTask.Some? && openTask.value != 0
  }

  /** `i` is the position of the first task carrying `id`: the one `find` returns. */
  ghost predicate FirstWithId(ts: seq<Task>, id: int, i: int) {
    0 <= i < |ts| && ts[i].id == id && forall j :: 0 <= j < i ==> ts[j].id != id
  }

  /** `Array.prototype.find` on the id: the position of the first task with it, if any. */
  function FindIndex(ts: seq<Task>, id: int): (r: Option<nat>)
    ensures r.Some? ==> FirstWithId(ts, id, r.value)
    ensures r.None? <==> forall j :: 0 <= j < |ts| ==> ts[j].id != id
  {
    if ts == [] then None
    else if ts[0].id == id then Some(0)
    else
      match FindIndex(ts[1..], id)
      case None => None
      case Some(i) => Some(i + 1)
  }

  /** Rewriting tasks without touching their ids leaves every `find` result as it was. */
  lemma {:induction false} FindIndexKeepsIds(ts: seq<Task>, us: seq<Task>, id: int)
    requires |ts| == |us|
    requires forall j :: 0 <= j < |ts| ==> us[j].id == ts[j].id
    ensures FindIndex(us, id) == FindIndex(ts, id)
  {
    if ts != [] && ts[0].id != id {
      FindIndexKeepsIds(ts[1..], us[1..], id);
    }
  }
}
