# To-do list core: mock task service and state container

This project models the list logic of a small to-do client at its two levels:

- **The mock task service** (`TaskAPI`, `src/api/taskApi.ts`). It holds a backing list of
  `Task` records (`id`, `title`, `completed`), seeded with five entries. It offers
  `getTasks` (a copy), `addTask` (append an open task with the trimmed title), `deleteTask`
  (filter out every record with an id; a missing id is a no-op) and `updateTask` (shallow
  merge of a partial record into the first record with an id, or a rejection with
  "Task not found").
- **The state container** (the Vuex store, `src/store/index.ts`). It holds `tasks`,
  `isLoading` and `currentFilter`. It has mutations (`SET_TASKS`, `ADD_TASK`,
  `DELETE_TASK`, `UPDATE_TASK`, `SET_LOADING`, `SET_FILTER`). Four of its actions
  (`fetchTasks`, `addTask`, `deleteTask`, `toggleTask`) run a set-loading / call / commit /
  catch / clear-loading cycle around one service call; `toggleTask` makes no call at all when
  no local task has the id. The fifth, `setFilter`, commits `SET_FILTER` directly, with no
  loading cycle and no service call. Two getters compute the
  filtered view (`filteredTasks`) and the per-filter counts (`getTaskCountByFilter`).

Layout, one module per file:

| file | module | models |
|---|---|---|
| `wrappers.dfy` | `Wrappers` | `Option` (absent fields) and `Result` (settled service calls) |
| `tasks.dfy` | `Tasks` | `Task`, `Filter`, the partial record `TaskPatch`, the shallow merge, the per-record tests used by `filter` |
| `task_lists.dfy` | `TaskLists` | `filter`, `findIndex` and replace-at-first-match over task lists, with the loops that run them |
| `text.dfy` | `Text` | `String.prototype.trim` |
| `task_api.dfy` | `Api` | the service: class `TaskApi` with a `seq<Task>` backing list |
| `store.dfy` | `TaskStore` | the store: class `Store`, its mutations and actions, and the two getters |

The mutations and the service's `addTask`, `deleteTask` and `updateTask` change state in
place. They are methods of the two classes, with `modifies` clauses; `getTasks` only reads
the backing list. Each `ensures` gives the new list in terms of the old one:
an append (`old(tasks) + [t]`) for the adds, and a specification function (`Without`,
`Replaced`, `Updated`) for the others. The id search behind every `findIndex` and the
delete-by-id `filter` are loops (`FindIndex`, `FilterOut`) proved equal to `FirstIndex` and
`Without`. The getters are functions, and their filters use the function `Select`. The loading cycle is made visible by a ghost field, `loadingTrace`, that records
every value committed to `isLoading`. Each action with a service call ensures the trace grew by
exactly `[true, false]`: the flag was raised, and it is down when the action returns, whether the
call succeeded or failed.

The service's backing list is a static field in the source. Here it is a `TaskApi` object that
the store's actions receive as a parameter. A freshly constructed `TaskApi` stands for the
program's start.

Points where the code does less than a reader might expect, modelled as the code has them:
- `deleteTask` removes every record with the id, not just "the matching" one.
- Uniqueness of ids is never enforced, because ids come from the clock. `AppendKeepsUnique`
  states exactly when an add keeps them unique.
- `toggleTask` sends `!completed` taken from the *local* record, then stores whatever record the
  service returns. The result is "flip exactly `completed`" only when both copies agree
  (`ToggleFlipsOnlyCompleted`).
- Titles are trimmed but not validated, so an all-blank title is stored as `""`.

## Model

| member | source | states |
|---|---|---|
| `Tasks.Merge` | src/api/taskApi.ts:52 | each field supplied in the partial record takes the supplied value; each unsupplied field keeps the old record's value (this includes `id`) |
| `Tasks.MergeNoChanges` | src/api/taskApi.ts:52 | merging a partial record that supplies nothing leaves the record unchanged |
| `Tasks.MergeIdempotent` | src/api/taskApi.ts:52 | merging the same partial record twice equals merging it once |
| `Tasks.CompletedPatch` | src/store/index.ts:83-85 | the `{ completed: !task.completed }` patch: merged into any task it gives back that task with only `completed` replaced by the given value |
| `TaskLists.Select` | src/store/index.ts:103-106 | a `filter` result is never longer than the list it filters |
| `TaskLists.SelectIsOrderedSubsequence` | src/store/index.ts:103-106 | a `filter` result is exactly the passing entries in their original relative order: entry j is the list's entry idx[j], idx strictly increases, and idx holds every passing position and no other |
| `TaskLists.SelectMembers` | src/store/index.ts:103-106 | a record is in a `filter` result if and only if it is in the list and passes the test |
| `TaskLists.StatusSplits` | src/store/index.ts:112-120 | the open entries and the done entries together account for every entry: their counts add up to the list length |
| `TaskLists.FirstIndex` | src/api/taskApi.ts:46-47 | `findIndex` by id gives -1 exactly when no entry has the id; otherwise it gives the first position holding it |
| `TaskLists.FindIndex` | src/api/taskApi.ts:46 | the linear search returns the `findIndex` result: -1 when the id is absent, else the first position holding it |
| `TaskLists.FilterOut` | src/api/taskApi.ts:37 | the filtering loop returns exactly the list without the records having the id |
| `TaskLists.Without` | src/api/taskApi.ts:37 | the result of `filter(task => task.id !== id)`: no record with the id is left and the list does not grow; it is `Select` with the id test, so `SelectIsOrderedSubsequence` gives its order, and `WithoutMembers`, `WithoutAbsent` and `WithoutPresentLength` give the rest |
| `TaskLists.WithoutMembers` | src/store/index.ts:21-22 | after a delete no record has the id, and every record with another id is still present |
| `TaskLists.WithoutAbsent` | src/api/taskApi.ts:37 | deleting an id that no record has leaves the list unchanged |
| `TaskLists.WithoutPresentLength` | src/store/index.ts:21-22 | with unique ids, deleting a present id shortens the list by exactly one |
| `TaskLists.SelectKeepsUnique` | src/store/index.ts:21-22 | filtering (and so deleting) keeps ids unique |
| `TaskLists.Replaced` | src/store/index.ts:25-29 | `UPDATE_TASK` writes the record at the first index holding its id only: the length, every other index and the id at every index are unchanged, and with no match the list is unchanged |
| `TaskLists.ReplacedKeepsUnique` | src/store/index.ts:25-29 | `UPDATE_TASK` keeps ids unique |
| `TaskLists.AppendKeepsUnique` | src/api/taskApi.ts:23-28 | appending a record keeps ids unique if and only if its id is not yet in the list |
| `Text.LeadingBlanks` | src/api/taskApi.ts:25 | the count of leading whitespace: every character before it is whitespace and the one at it is not |
| `Text.TrailingBlanks` | src/api/taskApi.ts:25 | the count of trailing whitespace: every character after the kept part is whitespace and the last kept one is not |
| `Text.Strip` | src/api/taskApi.ts:25 | the trimmed title is a slice of the input with only whitespace before and after it, and it neither starts nor ends with whitespace |
| `Text.Trim` | src/api/taskApi.ts:25 | `title.trim()`: `Strip` over the JavaScript whitespace set, whose contract it carries; the result is a slice of the title with only whitespace around it, and it neither starts nor ends with whitespace |
| `Text.StripIdempotent` | src/api/taskApi.ts:25 | trimming an already trimmed title changes nothing |
| `Api.SeedTasks` | src/api/taskApi.ts:4-10 | the initial backing list has five records with ids 1 to 5 (unique); ids 1 to 3 are completed and ids 4 and 5 are not |
| `Api.Updated` | src/api/taskApi.ts:46-53 | the list after an update: the same length; with no record of the id it is unchanged; otherwise only the first matching index changes, to the merge of the old record with the patch |
| `Api.UpdateCompletedOnly` | src/api/taskApi.ts:52 | an update that supplies only `completed` keeps every id and title and changes only the matched record's flag |
| `Api.TaskApi.constructor` | src/api/taskApi.ts:4-10 | a fresh service holds the seed list |
| `Api.TaskApi.GetTasks` | src/api/taskApi.ts:12-18 | returns a list equal to the backing list and leaves it untouched |
| `Api.TaskApi.AddTask` | src/api/taskApi.ts:20-32 | appends exactly one open record with the trimmed title; the old list is an unchanged prefix; the returned record is the appended one |
| `Api.TaskApi.DeleteTask` | src/api/taskApi.ts:34-41 | the backing list becomes the old list without the records having the id; it never fails |
| `Api.TaskApi.UpdateTask` | src/api/taskApi.ts:43-56 | fails with "Task not found" exactly when no record has the id, and then leaves the list unchanged; otherwise the list becomes `Updated(old, id, patch)` and the returned record is the newly stored one |
| `TaskStore.FilteredTasks` | src/store/index.ts:101-110 | the `filteredTasks` getter: under `all` (the default branch) it is the list itself; under `active` (`completed`) a task is shown exactly when it is in the list and open (done); order is given by `FilteredTasksExact` |
| `TaskStore.TaskCountByFilter` | src/store/index.ts:112-121 | the count for a filter is the length of the view that filter gives |
| `TaskStore.FilteredTasksExact` | src/store/index.ts:101-106 | under `active` the view is exactly the open tasks, under `completed` exactly the done tasks, each in original relative order |
| `TaskStore.FilteredTasksAll` | src/store/index.ts:107-108 | under `all` the view is the task list itself |
| `TaskStore.CountsPartition` | src/store/index.ts:112-120 | count(active) + count(completed) == count(all) == number of tasks, for every list |
| `TaskStore.ToggleRequest` | src/store/index.ts:81-85 | toggling sends nothing when no local task has the id; otherwise it sends `completed := !completed` of the first local task with it |
| `TaskStore.ToggleFlipsOnlyCompleted` | src/store/index.ts:78-93 | when local and service copies agree, a toggle leaves both lists with exactly that task's `completed` flipped and everything else as it was |
| `TaskStore.SeedCounts` | src/api/taskApi.ts:4-10 | the seed list counts two active and three completed tasks |
| `TaskStore.SeedAddDelete` | src/api/taskApi.ts:5 | after adding a task with a new id to the seed list and deleting id 1, five tasks remain and none has id 1 |
| `TaskStore.SeedWalkthrough` | src/api/taskApi.ts:4-10 | on a fresh service and store: after `fetchTasks` the counts are 2 active and 3 completed; after `addTask` with a new id there are 6 tasks; after `deleteTask(1)` there are 5, and the `all` view has no task with id 1 |
| `TaskStore.Store.constructor` | src/store/index.ts:6-10 | the initial state has no tasks, is not loading and has filter `all` |
| `TaskStore.Store.SetTasks` | src/store/index.ts:13-15 | `SET_TASKS` replaces the list |
| `TaskStore.Store.PushTask` | src/store/index.ts:17-19 | `ADD_TASK` appends: the old list is an unchanged prefix and the new record is last |
| `TaskStore.Store.RemoveTask` | src/store/index.ts:21-23 | `DELETE_TASK` leaves the list without the records having the id, others in order |
| `TaskStore.Store.ReplaceTask` | src/store/index.ts:25-30 | `UPDATE_TASK` leaves `Replaced(old, task)`: only the first index holding the id changes |
| `TaskStore.Store.SetLoading` | src/store/index.ts:32-34 | `SET_LOADING` sets the flag and is recorded in the loading trace |
| `TaskStore.Store.StoreFilter` | src/store/index.ts:36-38 | `SET_FILTER` sets the current filter |
| `TaskStore.Store.FetchTasks` | src/store/index.ts:42-52 | the store's list becomes the service's list, the service is untouched, the flag is raised and then cleared, and the filter is kept |
| `TaskStore.Store.AddTask` | src/store/index.ts:54-64 | the service and the store each gain the same new open record with the trimmed title at the end, and the flag ends cleared |
| `TaskStore.Store.DeleteTask` | src/store/index.ts:66-76 | the service and the store both lose every record with the id, and the flag ends cleared |
| `TaskStore.Store.ToggleTask` | src/store/index.ts:78-93 | with no local task of the id nothing changes and no service call is made; otherwise the service is updated with the flipped flag, and on success the returned record replaces the local one while on "Task not found" the local list is unchanged; the flag ends cleared either way |
| `TaskStore.Store.SetFilter` | src/store/index.ts:95-97 | sets the filter at once, without a loading cycle; tasks and flag unchanged |

## Left out

- The timer delays and the `Promise`/`async` wrapping of every service call and action: each call is a synchronous method that completes at once.
- Interleaving of concurrent actions, including the race on the shared `isLoading` flag and last-write-wins on the backing list. Only single, sequential invocations are modelled.
- `Date.now()` as the source of new ids: the id is a parameter of `Api.TaskApi.AddTask` and `TaskStore.Store.AddTask`. Its uniqueness is not assumed (see `AppendKeepsUnique`).
- `console.error` logging in the actions' `catch` blocks: it has no effect on state.
- The Vuex machinery (`createStore`, `commit` dispatch, reactivity) and the global `store.state` read in `toggleTask`: the store is a plain object whose methods call each other.
- JavaScript object identity: `getTasks` returns a shallow copy, and the service and the store share record objects. Records are never mutated in place, only replaced, so lists of values model them.
- `Text.Trim`: the whitespace set is written out for the Unicode space separators as of current Unicode versions; characters added to that category later are not included.
- A `Partial<Task>` whose field is present but `undefined` (the merge would then store `undefined`). A `TaskPatch` field is either absent (`None`) or a value.
- Titles are strings of Unicode scalar values, while JavaScript strings are UTF-16 code units: a title holding a lone surrogate cannot be represented. On well-formed strings `trim` gives the same result.
- JavaScript `number` ids are modelled as unbounded integers.
- `src/types/task.ts` has only type declarations. Its shapes are the `Task` and `Filter` datatypes and the fields of `Store`.
- Only `updateTask` can fail in the service. The other calls have no failure path in the model because the source gives them none. Their actions' `catch` branches are unreachable and are not modelled.
