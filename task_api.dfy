/** The mock task service (src/api/taskApi.ts): a backing list of tasks,
    seeded with five entries, behind list / add / delete / update. The
    service's timer delays are left out: each call completes at once. */
module Api {
  import opened Wrappers
  import opened Tasks
  import opened TaskLists
  import Text

  /** The rejection reason of an update on a missing id. */
  const TaskNotFound := "Task not found"

  /** The five records the backing list starts with. */
  function SeedTasks(): (s: seq<Task>)
    ensures |s| == 5 && UniqueIds(s)
    ensures forall i :: 0 <= i < |s| ==> s[i].id == i + 1 && (s[i].completed <==> i < 3)
  {
    [ Task(1, "Прочитать вакансию", true),
      Task(2, "Откликнуться на вакансию", true),
      Task(3, "Сделать тз", true),
      Task(4, "Пройти собеседования", false),
      Task(5, "Получить оффер", false) ]
  }

  /** The backing list after `updateTask(id, u)`: the first entry with `id`
      takes the supplied fields of `u`; without such an entry it is unchanged. */
  function Updated(s: seq<Task>, id: int, u: TaskPatch): (r: seq<Task>)
    ensures |r| == |s|
    ensures FirstIndex(s, id) == -1 ==> r == s
    ensures FirstIndex(s, id) != -1 ==> r[FirstIndex(s, id)] == Merge(s[FirstIndex(s, id)], u)
    ensures forall j :: 0 <= j < |s| && j != FirstIndex(s, id) ==> r[j] == s[j]
  {
    var i := FirstIndex(s, id);
    if i == -1 then s else s[i := Merge(s[i], u)]
  }

  /** The in-memory stand-in for the remote task service. */
  class TaskApi {
    /** The backing list, in insertion order. */
    var tasks: seq<Task>

    /** A fresh service holds the seed records. */
    constructor ()
      ensures tasks == SeedTasks()
    {
      tasks := SeedTasks();
    }

    /** `getTasks`: a copy of the backing list; the list itself is left alone. */
    method GetTasks() returns (r: seq<Task>)
      ensures r == tasks
    {
      r := tasks;
    }

    /** `addTask(title)`: appends an open task with the trimmed title and
      returns it. The service draws `id` from the clock; here the caller
      supplies it. */
    method AddTask(title: string, id: int) returns (t: Task)
      modifies this
      ensures t == Task(id, Text.Trim(title), false)
      ensures tasks == old(tasks) + [t]
    {
      t := Task(id, Text.Trim(title), false);
      tasks := tasks + [t];
    }

    /** `deleteTask(id)`: drops every entry with `id`; a missing id is no error. */
    method DeleteTask(id: int)
      modifies this
      ensures tasks == Without(old(tasks), id)
    {
      tasks := FilterOut(tasks, id);
    }

    /** `updateTask(id, u)`: merges `u` into the first entry with `id` and
      returns the stored result, or fails with "Task not found". */
    method UpdateTask(id: int, u: TaskPatch) returns (r: Result<Task, string>)
      modifies this
      ensures tasks == Updated(old(tasks), id, u)
      ensures r.Failure? <==> FirstIndex(old(tasks), id) == -1
      ensures r.Failure? ==> r.error == TaskNotFound
      ensures r.Success? ==> r.value == tasks[FirstIndex(old(tasks), id)]
    {
      var index := FindIndex(tasks, id);
      if index == -1 {
        return Failure(TaskNotFound);
      }
      tasks := tasks[index := Merge(tasks[index], u)];
      r := Success(tasks[index]);
    }
  }

  /** An update that supplies only `completed` keeps the ids and titles of
      the whole backing list, and flips nothing but the matched entry's flag. */
  lemma UpdateCompletedOnly(s: seq<Task>, id: int, c: bool)
    requires FirstIndex(s, id) != -1
    ensures var r := Updated(s, id, CompletedPatch(c));
      && (forall j :: 0 <= j < |s| ==> r[j].id == s[j].id && r[j].title == s[j].title)
      && r == s[FirstIndex(s, id) := s[FirstIndex(s, id)].(completed := c)]
  {
  }
}
