/** The record shapes of the to-do client (src/types/task.ts) and the
    record-level operations shared by the service and the store. */
module Tasks {
  import opened Wrappers

  /** One to-do entry. */
  datatype Task = Task(id: int, title: string, completed: bool)

  /** The view selector held by the store. */
  datatype Filter = All | Active | Completed

  /** A partial task record (`Partial<Task>`): `None` marks a field that is not supplied. */
  datatype TaskPatch = TaskPatch(id: Option<int>, title: Option<string>, completed: Option<bool>)

  /** The patch that supplies no field at all. */
  const NoChanges := TaskPatch(None, None, None)

  /** The patch that supplies only `completed`, as the store's toggle sends
      it: merged into any task, it sets that flag and keeps id and title. */
  function CompletedPatch(completed: bool): (p: TaskPatch)
    ensures forall t :: Merge(t, p) == t.(completed := completed)
  {
    TaskPatch(None, None, Some(completed))
  }

  /** Shallow merge `{ ...t, ...u }`: each supplied field of `u` wins,
      every other field keeps its value from `t`. */
  function Merge(t: Task, u: TaskPatch): (r: Task)
    ensures r.id == (if u.id.Some? then u.id.value else t.id)
    ensures r.title == (if u.title.Some? then u.title.value else t.title)
    ensures r.completed == (if u.completed.Some? then u.completed.value else t.completed)
  {
    Task(u.id.GetOr(t.id), u.title.GetOr(t.title), u.completed.GetOr(t.completed))
  }

  /** Merging a patch that supplies nothing leaves the task as it was. */
  lemma MergeNoChanges(t: Task)
    ensures Merge(t, NoChanges) == t
  {
  }

  /** Applying the same patch twice is the same as applying it once. */
  lemma MergeIdempotent(t: Task, u: TaskPatch)
    ensures Merge(Merge(t, u), u) == Merge(t, u)
  {
  }

  /** The per-record tests the list operations filter by:
      `task.completed` / `!task.completed` and `task.id !== id`. */
  datatype Criterion = StatusIs(completed: bool) | IdIsNot(id: int) {
    predicate Matches(t: Task) {
      match this
      case StatusIs(c) => t.completed == c
      case IdIsNot(i) => t.id != i
    }
  }
}
