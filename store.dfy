/** The state container (src/store/index.ts): the client-side task list, a
    loading flag and the current filter; mutations that change them, actions
    that wrap a service call in the loading cycle, and the two getters. */
module TaskStore {
  import opened Wrappers
  import opened Tasks
  import opened TaskLists
  import Text
  import Api

  /** Getter `filteredTasks`: the tasks the current filter shows. Under
      `all` that is the list itself; under `active` (`completed`) a task is
      shown exactly when it is in the list and open (done). */
  function FilteredTasks(tasks: seq<Task>, filter: Filter): (view: seq<Task>)
    ensures filter == All ==> view == tasks
    ensures filter != All ==>
      forall t :: t in view <==> t in tasks && t.completed == (filter == Completed)
  {
    SelectMembers(tasks, StatusIs(filter == Completed));
    match filter
    case Active => Select(tasks, StatusIs(false))
    case Completed => Select(tasks, StatusIs(true))
    case All => tasks
  }

  /** Getter `getTaskCountByFilter(filter)`: how many tasks `filter` shows,
      which is the length of the view that filter gives. */
  function TaskCountByFilter(tasks: seq<Task>, filter: Filter): (n: nat)
    ensures n == |FilteredTasks(tasks, filter)|
  {
    match filter
    case Active => |Select(tasks, StatusIs(false))|
    case Completed => |Select(tasks, StatusIs(true))|
    case All => |tasks|
  }

  /** Under `active` (`completed`) the view is exactly the open (done) tasks,
      in their original relative order: entry `j` of the view is entry
      `idx[j]` of the list, `idx` increases, and it holds every position
      whose task has the wanted status and no other. */
  lemma FilteredTasksExact(tasks: seq<Task>, filter: Filter)
    requires filter != All
    ensures var want := filter == Completed;
      var view := FilteredTasks(tasks, filter);
      var idx := KeptPositions(tasks, StatusIs(want));
      && |idx| == |view|
      && (forall j :: 0 <= j < |idx| ==> idx[j] < |tasks| && view[j] == tasks[idx[j]])
      && (forall a, b :: 0 <= a < b < |idx| ==> idx[a] < idx[b])
      && (forall i :: 0 <= i < |tasks| ==> (tasks[i].completed == want <==> i in idx))
  {
    SelectIsOrderedSubsequence(tasks, StatusIs(filter == Completed));
  }

  /** Under `all` the view is the list itself. */
  lemma FilteredTasksAll(tasks: seq<Task>)
    ensures FilteredTasks(tasks, All) == tasks
  {
  }

  /** The open and the done counts add up to the total, which is the list length. */
  lemma CountsPartition(tasks: seq<Task>)
    ensures TaskCountByFilter(tasks, Active) + TaskCountByFilter(tasks, Completed)
         == TaskCountByFilter(tasks, All)
         == |tasks|
  {
    StatusSplits(tasks);
  }

  /** What `toggleTask(id)` asks the service for: flip `completed` of the
      first local task with `id`; nothing when no local task has that id. */
  function ToggleRequest(tasks: seq<Task>, id: int): (r: Option<TaskPatch>)
    ensures r.None? <==> FirstIndex(tasks, id) == -1
    ensures r.Some? ==> r.value == CompletedPatch(!tasks[FirstIndex(tasks, id)].completed)
  {
    var i := FirstIndex(tasks, id);
    if i == -1 then None else Some(CompletedPatch(!tasks[i].completed))
  }

  /** When the local list and the backing list agree on the task with `id`,
      a toggle round trip leaves the backing list and the local list with
      that one task's `completed` flipped and every other entry and field as
      it was. */
  lemma ToggleFlipsOnlyCompleted(local: seq<Task>, remote: seq<Task>, id: int)
    requires FirstIndex(local, id) != -1 && FirstIndex(remote, id) != -1
    requires local[FirstIndex(local, id)] == remote[FirstIndex(remote, id)]
    ensures var li := FirstIndex(local, id);
      var ri := FirstIndex(remote, id);
      var flipped := local[li].(completed := !local[li].completed);
      var remote' := Api.Updated(remote, id, ToggleRequest(local, id).value);
      && remote' == remote[ri := flipped]
      && Replaced(local, remote'[ri]) == local[li := flipped]
  {
  }

  /** The client-side state: the tasks shown, the loading flag and the filter. */
  class Store {
    var tasks: seq<Task>
    var isLoading: bool
    var currentFilter: Filter
    /** Every value committed to the loading flag, oldest first. */
    ghost var loadingTrace: seq<bool>

    /** The initial state: no tasks, not loading, filter `all`. */
    constructor ()
      ensures tasks == [] && !isLoading && currentFilter == All && loadingTrace == []
    {
      tasks := [];
      isLoading := false;
      currentFilter := All;
      loadingTrace := [];
    }

    // ----- mutations

    /** `SET_TASKS`: replaces the list. */
    method SetTasks(ts: seq<Task>)
      modifies this`tasks
      ensures tasks == ts
    {
      tasks := ts;
    }

    /** `ADD_TASK`: appends `t`; the old list is an untouched prefix. */
    method PushTask(t: Task)
      modifies this`tasks
      ensures tasks == old(tasks) + [t]
    {
      tasks := tasks + [t];
    }

    /** `DELETE_TASK`: keeps the tasks whose id differs from `id`. */
    method RemoveTask(id: int)
      modifies this`tasks
      ensures tasks == Without(old(tasks), id)
    {
      tasks := FilterOut(tasks, id);
    }

    /** `UPDATE_TASK`: stores `t` at the first index holding `t.id`, if any. */
    method ReplaceTask(t: Task)
      modifies this`tasks
      ensures tasks == Replaced(old(tasks), t)
    {
      var index := FindIndex(tasks, t.id);
      if index != -1 {
        tasks := tasks[index := t];
      }
    }

    /** `SET_LOADING`. */
    method SetLoading(loading: bool)
      modifies this`isLoading, this`loadingTrace
      ensures isLoading == loading && loadingTrace == old(loadingTrace) + [loading]
    {
      isLoading := loading;
      loadingTrace := loadingTrace + [loading];
    }

    /** `SET_FILTER`. */
    method StoreFilter(filter: Filter)
      modifies this`currentFilter
      ensures currentFilter == filter
    {
      currentFilter := filter;
    }

    // ----- actions

    /** `fetchTasks`: loads the service's list into the store. */
    method FetchTasks(api: Api.TaskApi)
      modifies this
      ensures tasks == api.tasks
      ensures !isLoading && loadingTrace == old(loadingTrace) + [true, false]
      ensures currentFilter == old(currentFilter)
    {
      SetLoading(true);
      var fetched := api.GetTasks();
      SetTasks(fetched);
      SetLoading(false);
    }

    /** `addTask(title)`: has the service create the task (with the id the
      caller supplies in place of the clock), then appends the same record. */
    method AddTask(api: Api.TaskApi, title: string, id: int)
      modifies this, api
      ensures api.tasks == old(api.tasks) + [Task(id, Text.Trim(title), false)]
      ensures tasks == old(tasks) + [Task(id, Text.Trim(title), false)]
      ensures !isLoading && loadingTrace == old(loadingTrace) + [true, false]
      ensures currentFilter == old(currentFilter)
    {
      SetLoading(true);
      var created := api.AddTask(title, id);
      PushTask(created);
      SetLoading(false);
    }

    /** `deleteTask(id)`: drops `id` on the service, then locally. */
    method DeleteTask(api: Api.TaskApi, id: int)
      modifies this, api
      ensures api.tasks == Without(old(api.tasks), id)
      ensures tasks == Without(old(tasks), id)
      ensures !isLoading && loadingTrace == old(loadingTrace) + [true, false]
      ensures currentFilter == old(currentFilter)
    {
      SetLoading(true);
      api.DeleteTask(id);
      RemoveTask(id);
      SetLoading(false);
    }

    /** `toggleTask(id)`: with no local task `id`, no service call is made
      and nothing changes. Otherwise the service is asked to flip that
      task's `completed`; on success its returned record replaces the local
      one, and on "Task not found" the local list stays as it was. */
    method ToggleTask(api: Api.TaskApi, id: int)
      modifies this, api
      ensures ToggleRequest(old(tasks), id).None? ==>
        tasks == old(tasks) && api.tasks == old(api.tasks)
      ensures ToggleRequest(old(tasks), id).Some? ==>
        && api.tasks == Api.Updated(old(api.tasks), id, ToggleRequest(old(tasks), id).value)
        && tasks == (if FirstIndex(old(api.tasks), id) == -1 then old(tasks)
                     else Replaced(old(tasks), api.tasks[FirstIndex(old(api.tasks), id)]))
      ensures !isLoading && loadingTrace == old(loadingTrace) + [true, false]
      ensures currentFilter == old(currentFilter)
    {
      SetLoading(true);
      var index := FindIndex(tasks, id);
      if index != -1 {
        var outcome := api.UpdateTask(id, CompletedPatch(!tasks[index].completed));
        if outcome.Success? {
          ReplaceTask(outcome.value);
        }
      }
      SetLoading(false);
    }

    /** `setFilter`: sets the filter at once, without a loading cycle. */
    method SetFilter(filter: Filter)
      modifies this
      ensures currentFilter == filter
      ensures tasks == old(tasks) && isLoading == old(isLoading) && loadingTrace == old(loadingTrace)
    {
      StoreFilter(filter);
    }
  }

  /** The walk-through of a fresh service and store: after a fetch the
      counts are 2 open and 3 done; one add makes 6 tasks; deleting the
      first seed task brings the total back to 5 with that task gone. */
  method SeedWalkthrough(newId: int)
    returns (active: nat, completed: nat, afterAdd: nat, afterDelete: nat, view: seq<Task>)
    requires newId > 5
    ensures active == 2 && completed == 3
    ensures afterAdd == 6 && afterDelete == 5
    ensures |view| == 5 && forall t :: t in view ==> t.id != 1
  {
    var api := new Api.TaskApi();
    var store := new Store();
    store.FetchTasks(api);
    SeedCounts();
    active := TaskCountByFilter(store.tasks, Active);
    completed := TaskCountByFilter(store.tasks, Completed);
    store.AddTask(api, "X", newId);
    afterAdd := TaskCountByFilter(store.tasks, All);
    store.DeleteTask(api, 1);
    SeedAddDelete(Task(newId, Text.Trim("X"), false));
    afterDelete := TaskCountByFilter(store.tasks, All);
    view := FilteredTasks(store.tasks, All);
  }

  /** Adding a task with a fresh id to the seed list and then deleting id 1
      leaves five tasks, none with id 1. */
  lemma SeedAddDelete(added: Task)
    requires added.id > 5
    ensures var s := Without(Api.SeedTasks() + [added], 1);
      |s| == 5 && forall t :: t in s ==> t.id != 1
  {
    var seed := Api.SeedTasks();
    assert FirstIndex(seed, added.id) == -1;
    AppendKeepsUnique(seed, added);
    assert (seed + [added])[0].id == 1;
    WithoutPresentLength(seed + [added], 1);
    WithoutMembers(seed + [added], 1);
  }

  /** The seed list holds two open and three done tasks. */
  lemma SeedCounts()
    ensures TaskCountByFilter(Api.SeedTasks(), Active) == 2
    ensures TaskCountByFilter(Api.SeedTasks(), Completed) == 3
  {
    SeedSelection(StatusIs(false));
    SeedSelection(StatusIs(true));
  }

  /** A selection from the seed list, entry by entry. */
  lemma SeedSelection(k: Criterion)
    ensures var s := Api.SeedTasks();
      Select(s, k) == Select([], k)
        + (if k.Matches(s[0]) then [s[0]] else [])
        + (if k.Matches(s[1]) then [s[1]] else [])
        + (if k.Matches(s[2]) then [s[2]] else [])
        + (if k.Matches(s[3]) then [s[3]] else [])
        + (if k.Matches(s[4]) then [s[4]] else [])
  {
    var s := Api.SeedTasks();
    assert s[..1] == [] + [s[0]];
    SelectAppend([], s[0], k);
    assert s[..2] == s[..1] + [s[1]];
    SelectAppend(s[..1], s[1], k);
    assert s[..3] == s[..2] + [s[2]];
    SelectAppend(s[..2], s[2], k);
    assert s[..4] == s[..3] + [s[3]];
    SelectAppend(s[..3], s[3], k);
    assert s == s[..4] + [s[4]];
    SelectAppend(s[..4], s[4], k);
  }
}
