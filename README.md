# Tasks: a verified model of the task list and its selection policy

This project models the core of a small desktop to-do application. The core has four parts:

- **Task store** (`src/js/tasks-model.js`). It holds one ordered list of task records. Each record has an id, a title, the `completed`, `deleted` and `flagged` flags, and optional notes. The list is kept in canonical order: active tasks, then completed-and-not-deleted tasks, then deleted tasks. Every mutator except a purge with nothing to purge saves the list. Those that add a task or move one between partitions (`addTask`, `deleteTask`, `restoreTask`, `toggleCompleted`) re-sort it first. `toggleFlagged` and `permanentlyDeleteTask` save without sorting, and `permanentlyDeleteAllDeletedTasks` writes nothing when no task is deleted.
- **Selection controller** (`src/js/tasks-controller.js`). It holds the selected task and decides what becomes selected after selecting, navigating, toggling, deleting, purging, adding from the input box and dragging.
- **Settings** (`src/js/settings-model.js`). These are the two visibility flags the controller consults.
- **Point-in-rectangle test** (`src/js/utils.js`).

The modules follow the source files:

| module | file | models |
|---|---|---|
| `Wrappers` | `wrappers.dfy` | `Option`, the model's `null` |
| `Tasks` | `tasks.dfy` | The task record, the three partitions and the canonical sort. Also the pure queries of the store: the filtered views, the counts, index lookup and the saturating previous/next neighbours. Lemmas about all of them. |
| `TasksModel` | `tasks_model.dfy` | The class `TaskStore`: the list `_tasks` and its mutators. The key-value store entry is the ghost snapshot `saved`. |
| `SettingsModel` | `settings_model.dfy` | The class `Settings`: the two flags and their stored entries. |
| `DropOrder` | `drop_order.dfy` | The comparator sort of the drop handler, as the stable sort by position in the container's id list. |
| `TasksController` | `tasks_controller.dfy` | The class `Controller`: the selection, the ghost task-menu flag and every handler of the core. Also `getNextTaskToHighlight`, the render routing, the drop flags and `String.prototype.trim`. |
| `Utils` | `utils.dfy` | `isPointInRectangle` over real coordinates. |

**Modelling choices**

- **Task identity.** Tasks are values and a task's identity is its id. Ids are unique throughout the list (`TaskStore.Valid`). The source compares `_selectedTask === task` by reference. All such tasks come from the list, so the model compares ids instead.
- **Selection and task menu.** The selection is `Option<Id>`. `menuEnabled` models the application menu's task items. `src/components/menu.js:14-17` uses those items as a proxy for "a task is selected", so `Controller.MenuTracksSelection` states that they agree.
- **Inputs the source takes from its environment:**
  - the user's answer to `confirm()` is a boolean parameter;
  - the id `Date.now()` would produce is a parameter, required to be fresh;
  - the order of the children of the drop container is a parameter.

**Behaviour of the source worth knowing**

- `toggleCompleted` on the selected task, with completed tasks hidden, computes a replacement selection and throws it away, so the selection is unchanged. The branch's own comment (`src/js/tasks-controller.js:275-276`) says the selected task is the one being hidden. Yet line 277 calls `getNextTaskToHighlight(task)` and uses neither its result nor `selectTask`.
- `toggleCompleted` does not substitute the selection for a null argument. `toggleShowCompleted` replaces a null argument with `_selectedTask` (`src/js/tasks-controller.js:217-219`). `toggleCompleted` reads `task.deleted` at once (264-266), so it fails on null, and the model takes an id that must be in the store.
- `selectTask(null)` does not disable the task menu when there is no selection. `deselectTask(null)` returns before it does so (`src/js/tasks-controller.js:190-195`). The menu items are the application's stand-in for "a task is selected" (`src/components/menu.js:14-17`), so the menu can then claim a selection that does not exist. See Findings.

## Model

| member | source | states |
|---|---|---|
| Tasks.Filter | src/js/tasks-model.js:15-17 | a task is in the result exactly when it is in the list and satisfies the predicate; the result is no longer than the list |
| Tasks.IndexOf | src/js/tasks-controller.js:752 | `indexOf` gives -1 exactly when the element is absent, else its first position |
| Tasks.FindIndex | src/js/tasks-model.js:163 | `findIndex` by id gives -1 exactly when no task has the id, else the first position holding it |
| Tasks.Without | src/js/tasks-model.js:103 | a task survives exactly when it is in the list and its id is not removed |
| Tasks.Sort | src/js/tasks-model.js:14-19 | the sorted list holds exactly the tasks of the list, since every task is in exactly one of the three partitions |
| Tasks.SortPermutation | src/js/tasks-model.js:14-19 | the canonical sort is a permutation of the list |
| Tasks.SortCanonical | src/js/tasks-model.js:14-19 | the sorted list has active, then completed-not-deleted, then deleted tasks |
| Tasks.SortStable | src/js/tasks-model.js:14-19 | each partition keeps its relative order through the sort |
| Tasks.CanonicalIffSorted | src/js/tasks-model.js:13-19 | sorting leaves a list unchanged exactly when it is already in canonical order |
| Tasks.SortCharacterization | src/js/tasks-model.js:13-19 | the sort of `s` is the one canonical list whose three partitions equal those of `s` |
| Tasks.SortIdempotent | src/js/tasks-model.js:14-19 | sorting twice is sorting once |
| Tasks.SortUniqueIds | src/js/tasks-model.js:14-19 | the sort keeps ids unique |
| Tasks.GetTasks | src/js/tasks-model.js:21-53 | a task is in the view exactly when it is active, or completed-not-deleted and completed tasks are shown, or deleted and deleted tasks are shown |
| Tasks.GetTasksParts | src/js/tasks-model.js:28-40 | the view is canonical; its active part is the list's; its completed and deleted parts are the list's when shown and empty when hidden |
| Tasks.GetAllTasks | src/js/tasks-model.js:23-26 | with no arguments the view is the canonical sort of the whole list |
| Tasks.GetAllTasksCanonical | src/js/tasks-model.js:23-40 | with no arguments the view of a canonical list is the list itself |
| Tasks.GetTasksUniqueIds | src/js/tasks-model.js:21-53 | views keep ids unique |
| Tasks.GetTaskByIndex | src/js/tasks-model.js:55-60 | a task exactly when `length - 1 >= index`, and then the task at that index |
| Tasks.GetNumTasks | src/js/tasks-model.js:62-71 | with completed tasks, the length; without, at most the length, zero exactly when every task has `completed` set, and the length exactly when none has |
| Tasks.GetNumActiveTasks | src/js/tasks-model.js:73-76 | zero exactly when no task is active, the length exactly when every task is |
| Tasks.GetNumCompletedTasks | src/js/tasks-model.js:78-81 | zero exactly when no task has `completed` set, the length exactly when every task has, deleted tasks included |
| Tasks.GetNumDeletedTasks | src/js/tasks-model.js:83-86 | zero exactly when no task is deleted, the length exactly when every task is |
| Tasks.CountsAddUp | src/js/tasks-model.js:62-86 | the three partition counts add up to the length; `getNumTasks(false)` plus `getNumCompletedTasks` is the length; `getNumCompletedTasks` includes deleted tasks with `completed` set; `getNumTasks(false)` includes deleted tasks with `completed` clear |
| Tasks.GetPreviousTask | src/js/tasks-model.js:155-171 | null exactly for null; otherwise the task itself or a task of the view |
| Tasks.GetNextTask | src/js/tasks-model.js:176-192 | null exactly for null; otherwise the task itself or a task of the view |
| Tasks.PreviousAt | src/js/tasks-model.js:155-171 | the previous task of the k-th task of the view is the (k-1)-th, or the task itself when k is 0 |
| Tasks.NextAt | src/js/tasks-model.js:176-192 | the next task of the k-th task of the view is the (k+1)-th, or the task itself when it is last |
| Tasks.WithoutAt | src/js/tasks-model.js:122 | with unique ids, removing the k-th task's id removes exactly position k |
| Tasks.WithoutOne | src/js/tasks-model.js:122 | with unique ids, filtering out one id removes exactly the task at its position, changes nothing for an absent id, and leaves the old ids minus that one |
| Tasks.WithoutAbsent | src/js/tasks-model.js:122 | removing an id no task carries changes nothing |
| Tasks.WithoutWithout | src/js/tasks-model.js:126-131 | removing one id list after another is removing both |
| Tasks.WithoutDeletedIds | src/js/tasks-model.js:126-131 | removing the ids of the deleted tasks keeps exactly the non-deleted tasks, in order |
| Tasks.PurgedAll | src/js/tasks-model.js:126-131 | after removing the ids of the deleted tasks no deleted task remains, and the rest is the non-deleted tasks in order |
| Tasks.SortAddTop | src/js/tasks-model.js:88-96 | after unshift and sort, the task leads its partition and every partition otherwise keeps its order |
| Tasks.SortAddBottom | src/js/tasks-model.js:88-96 | after push and sort, the task ends its partition and every partition otherwise keeps its order |
| Tasks.FlagKeepsOrder | src/js/tasks-model.js:147-150 | flipping `flagged` in place keeps the ids, the partition of every position and canonical order |
| Tasks.IdsReinsert | src/js/tasks-model.js:103-104 | after taking a task out by id, adding it back and sorting, the ids are the old ones plus that id |
| TasksModel.TaskStore.constructor | src/js/tasks-model.js:1 | the list is the stored list, or empty when none is stored |
| TasksModel.TaskStore.SaveTasks | src/js/tasks-model.js:3-5 | the stored snapshot becomes the list |
| TasksModel.TaskStore.SortTasks | src/js/tasks-model.js:14-19 | the list becomes its canonical sort, a canonical permutation of the old list, ids still unique |
| TasksModel.TaskStore.ReplaceTasks | src/js/tasks-model.js:7-11 | the list becomes the canonical sort of the new list, and is saved |
| TasksModel.TaskStore.AddTask | src/js/tasks-model.js:88-96 | "bottom" appends and any other position prepends before the sort; the task is last or first of its partition; other partitions unchanged; ids are the old ones plus the new one; saved |
| TasksModel.TaskStore.DeleteTask | src/js/tasks-model.js:98-107 | `deleted` set and `completed` kept; the task leads the deleted partition; the active and completed partitions lose only that task; ids plus that id; saved |
| TasksModel.TaskStore.RestoreTask | src/js/tasks-model.js:109-118 | `deleted` cleared; the task leads the active or completed partition its `completed` flag selects; the deleted partition loses it; saved |
| TasksModel.TaskStore.PermanentlyDeleteTask | src/js/tasks-model.js:120-124 | the list becomes the old list without the tasks carrying that id (`Tasks.WithoutOne` says what that leaves), ids stay unique, and the new list is saved |
| TasksModel.TaskStore.PermanentlyDeleteEach | src/js/tasks-model.js:128-130 | deleting each task of a list in turn removes all their ids; nothing is written for an empty list, and the last list is saved otherwise |
| TasksModel.TaskStore.PermanentlyDeleteAllDeletedTasks | src/js/tasks-model.js:126-131 | the loop leaves exactly the non-deleted tasks in their order; no deleted task remains; nothing is written when there was no deleted task |
| TasksModel.TaskStore.ToggleCompleted | src/js/tasks-model.js:133-145 | only `completed` flips; the task leads its new partition; ids plus that id; saved |
| TasksModel.TaskStore.ToggleFlagged | src/js/tasks-model.js:147-150 | only `flagged` of that task flips, at its position; ids and canonical order kept; saved |
| SettingsModel.Initial | src/js/settings-model.js:1-2 | a flag starts true exactly when `true` is stored; absent means false |
| SettingsModel.Settings.constructor | src/js/settings-model.js:1-2 | both flags start from their stored items |
| SettingsModel.Settings.SetShowingCompleted | src/js/settings-model.js:9-12 | sets the flag and writes it under `show_completed` |
| SettingsModel.Settings.SetShowingDeleted | src/js/settings-model.js:19-22 | sets the flag and writes it under `show_deleted` |
| SettingsModel.Settings.ToggleShowCompleted | src/js/settings-model.js:14-17 | negates `showingCompleted`, keeps `showingDeleted`, writes the new value under `show_completed` |
| SettingsModel.Settings.ToggleShowDeleted | src/js/settings-model.js:24-27 | negates `showingDeleted`, keeps `showingCompleted`, writes the new value under `show_deleted` |
| SettingsModel.Settings.RestoreDefaultSettings | src/js/settings-model.js:4-7 | both flags false and both written |
| SettingsModel.ToggleShowCompletedTwice | src/js/settings-model.js:14-17 | two toggles give back both original flags |
| SettingsModel.ToggleShowDeletedTwice | src/js/settings-model.js:24-27 | two toggles give back both original flags |
| DropOrder.Key | src/js/tasks-controller.js:750-752 | the key is -1 exactly for a task outside the container, else the position of its id |
| DropOrder.Insert | src/js/tasks-controller.js:752 | inserting adds exactly the one element |
| DropOrder.SortByKey | src/js/tasks-controller.js:752 | the comparator sort is a permutation |
| DropOrder.SortByKeySorted | src/js/tasks-controller.js:752 | the result is ordered by key |
| DropOrder.SortByKeyStable | src/js/tasks-controller.js:752 | tasks with equal keys keep their relative order |
| DropOrder.SortByKeyOfSorted | src/js/tasks-controller.js:752 | a list already ordered by key is unchanged |
| DropOrder.FilterSortedByKey | src/js/tasks-controller.js:752-753 | each partition of a list ordered by key is ordered by key |
| DropOrder.SortByKeyUniqueIds | src/js/tasks-controller.js:752 | the sort keeps the members and unique ids |
| TasksController.NextTaskToHighlight | src/js/tasks-controller.js:297-330 | none exactly for a one-task list; otherwise a neighbour of the task in the full list; in the middle, the next task exactly when it has the same `completed` and `deleted` flags |
| TasksController.HighlightIsAnother | src/js/tasks-controller.js:297-330 | with unique ids the replacement is a different task of the list |
| TasksController.HighlightFallsBack | src/js/tasks-controller.js:318-326 | between two active tasks and before a completed task, the previous task is chosen |
| TasksController.HighlightMayBeHidden | src/js/tasks-controller.js:300 | searching the full list can pick a task the view hides |
| TasksController.ContainerOf | src/js/tasks-controller.js:670-676 | a task is rendered in the container of its partition |
| TasksController.Dropped | src/js/tasks-controller.js:735-747 | the active container clears both flags; the completed container sets `completed` and clears `deleted`; the deleted container sets `deleted` only; nothing else changes |
| TasksController.DroppedRendersThere | src/js/tasks-controller.js:670-676 | a dropped task is rendered in the container it was dropped on |
| TasksController.TrimStart | src/js/tasks-controller.js:29 | removes exactly the leading white space |
| TasksController.TrimEnd | src/js/tasks-controller.js:29 | removes exactly the trailing white space |
| TasksController.Trim | src/js/tasks-controller.js:29 | the result is the characters of the input between its leading and trailing white-space runs, starts and ends with a non-white-space character, and is empty exactly when the input is all white space |
| TasksController.NewTask | src/js/tasks-controller.js:30-36 | the new record has the given id and title, all flags false and no notes |
| TasksController.DropReorders | src/js/tasks-controller.js:749-753 | after a drop the list holds the same tasks with unique ids, in canonical order, each partition ordered by the container's id list, the dragged task included with its new flags |
| TasksController.Controller.constructor | src/js/tasks-controller.js:5 | nothing selected, task menu disabled |
| TasksController.Controller.View | src/js/tasks-controller.js:288-293 | the view that `getPreviousTask` and `getNextTask` are handed holds exactly the store's tasks that the current settings show |
| TasksController.Controller.SelectedTask | src/js/tasks-controller.js:5 | the selected task is the store's task with the selected id |
| TasksController.Controller.DeselectTask | src/js/tasks-controller.js:190-213 | null changes nothing here; a task clears the selection and disables the menu |
| TasksController.Controller.SelectTask | src/js/tasks-controller.js:151-172 | null clears the selection, and disables the menu only if something was selected; a task becomes the selection and enables the menu, so selecting twice is selecting once |
| TasksController.Controller.SelectPreviousTask | src/js/tasks-controller.js:287-290 | the selection moves to the previous task of the current view, saturating at the first |
| TasksController.Controller.SelectNextTask | src/js/tasks-controller.js:292-295 | the selection moves to the next task of the current view, saturating at the last |
| TasksController.Controller.ToggleShowCompleted | src/js/tasks-controller.js:215-233 | the flag flips; the selection is cleared exactly when completed tasks become hidden and the task (argument, else selection) has `completed` set; otherwise that task is selected; the menu ends up enabled exactly when a task is selected or it was enabled with nothing selected before |
| TasksController.Controller.ToggleShowDeleted | src/js/tasks-controller.js:235-252 | the same with `deleted`, including the menu |
| TasksController.Controller.ToggleFlag | src/js/tasks-controller.js:254-262 | no change for a deleted or completed task; otherwise only its `flagged` flips in place; the selection is kept |
| TasksController.Controller.ToggleCompleted | src/js/tasks-controller.js:264-285 | no change for a deleted task; otherwise the store's toggle; the selection never changes |
| TasksController.Controller.Replacement | src/js/tasks-controller.js:345 | the replacement is another task of the store |
| TasksController.Controller.DeleteTaskAndHighlightNextTask | src/js/tasks-controller.js:332-362 | a declined confirm on a deleted task changes nothing; a deleted task is removed for good, any other soft-deleted; a selected target is replaced by next-to-highlight of the pre-deletion list; another target keeps the selection |
| TasksController.Controller.DeleteTaskAndHighlightNextTaskCorrected | src/js/tasks-controller.js:332-362 | the same, and the menu stays in step with the selection |
| TasksController.Controller.RestoreTask | src/js/tasks-controller.js:364-367 | the store's restore; the selection stays valid |
| TasksController.Controller.PurgeDeletedTasks | src/js/tasks-controller.js:138-145 | declined: nothing changes; confirmed: exactly the non-deleted tasks remain, and the list is saved exactly when some task was deleted |
| TasksController.Controller.PurgeDeletedTasksCorrected | src/js/tasks-controller.js:138-145 | the same, and a purged selection is cleared |
| TasksController.Controller.AddTaskKeyPress | src/js/tasks-controller.js:28-48 | only Enter with input that does not trim to empty acts: it adds the untrimmed input as a new task at the bottom with Shift and at the top without, selects it and empties the box |
| TasksController.Controller.AddTaskKeyDown | src/js/tasks-controller.js:49-55 | Tab selects the list's first task exactly when `getNumTasks(showingCompleted)` is positive |
| TasksController.Controller.AddTaskFocus | src/js/tasks-controller.js:56-58 | focusing the input box clears the selection |
| TasksController.Controller.Drop | src/js/tasks-controller.js:733-757 | the dragged task takes the container's flags and lands in the container's partition; the list is a canonical permutation with every partition in the container's order; the selection is kept and the menu enabled; the store stays valid and the selection stays in the store (the settings are not written) |
| TasksController.DeleteOnlyTaskScenario | src/js/tasks-controller.js:346-360 | deleting the only, selected task leaves the menu enabled with nothing selected |
| TasksController.DeleteOnlyTaskCorrectedScenario | src/js/tasks-controller.js:346-360 | the corrected handler disables the menu |
| TasksController.PurgeSelectedScenario | src/js/tasks-controller.js:138-145 | purging a selected deleted task leaves the selection on a task that no longer exists |
| TasksController.PurgeSelectedCorrectedScenario | src/js/tasks-controller.js:138-145 | the corrected handler clears the selection |
| Utils.IsPointInRectangle | src/js/utils.js:3-9 | true exactly when each coordinate lies between the corners' coordinates, bounds included |
| Utils.CornerOrderIrrelevant | src/js/utils.js:5-8 | swapping the two corners does not change the result |
| Utils.OtherDiagonal | src/js/utils.js:5-8 | giving the other pair of opposite corners does not change the result |
| Utils.CornersInside | src/js/utils.js:7-8 | both corners are inside |
| Utils.DegenerateRectangle | src/js/utils.js:7-8 | a rectangle with equal corners holds exactly that point |

## Left out

- Rendering is not modelled: DOM construction in `renderTasks`, highlight classes, quick actions, the details pane, `setNoTitle` and empty drop containers. Only the routing rule is kept, as `ContainerOf`. These are all presentation. The note icon's click handler (`src/js/tasks-controller.js:569`) is not modelled either. It assigns `_selectedTask = task` directly, without `selectTask`, so it skips the highlight and `enableTaskMenu`. It is another path that breaks `MenuTracksSelection`.
- In-place title and notes editing is not modelled (`src/js/tasks-controller.js:60-107`, `460-540`). Those handlers write through the aliased `_selectedTask` into a DOM widget and the Quill editor, and both are outside the core.
- `keydown` Escape, the `newTask` IPC (focus only), page initialisation and the tray label updates are not modelled. They are window and IPC glue with no state of the core.
- `getDragAfterElement`, `dragover` and `dragleave` are not modelled. They decide the DOM order from floating-point geometry, so that order is the `updatedOrder` parameter of `Drop`.
- JSON serialisation is not modelled. The stored task list and stored flags are ghost snapshots. Malformed stored text is not modelled.
- `confirm()` is not modelled; its answer is the `confirmed` parameter. `Date.now()` is not modelled; its value is the `newId` parameter.
- TasksController.Controller.AddTaskKeyPress: requires `newId` to be fresh. `Date.now()` does not guarantee this.
- Tasks.GetPreviousTask: requires the task to be in the view, as do `GetNextTask`, `SelectPreviousTask` and `SelectNextTask`. The source's behaviour for an absent task relies on `findIndex` giving -1 and out-of-range reads giving `undefined`.
- TasksController.NextTaskToHighlight: requires the task to be in the list, for the same reason.
- TasksController.Controller.SelectTask: requires the task to be in the store. Otherwise the source's `querySelector` finds no element and `classList` fails; the handlers that reselect `_selectedTask` inherit the requirement.
- TasksController.Controller.ToggleFlag: takes an id of the store. The IPC handler passes `_selectedTask` unchanged (`src/js/tasks-controller.js:126-128`), and `toggleFlag` reads `task.deleted` at once (256), so with nothing selected the source throws a TypeError. That failure is not modelled.
- TasksController.Controller.DeleteTaskAndHighlightNextTask: takes an id of the store. The IPC handler passes `_selectedTask` unchanged (`src/js/tasks-controller.js:135-137`), and the handler reads `task.deleted` at once (334), so with nothing selected the source throws a TypeError. That failure is not modelled. The same holds for `DeleteTaskAndHighlightNextTaskCorrected`.
- TasksModel.TaskStore.ToggleFlagged: requires the task to be in the list. In the source the flip reaches the list only through the shared object.
- Reference identity is not modelled. Tasks are values and `===` on tasks is id equality, which agrees with the source while ids are unique. This handles, for example, the argument `getNextTaskToHighlight` compares against `_selectedTask`.
- TasksController.Controller.Drop: its contract speaks of the store's validity only, not of `Consistent()`. The settings are outside its `modifies` clause and so keep their values and validity. It also requires a selected task. The handler writes the container's flags through `_selectedTask` at once (`src/js/tasks-controller.js:736`, `740` or `745`). `dragover` accepts any drag, so a drop can arrive with nothing selected, and the source then throws a TypeError. That failure is not modelled.
- Utils.IsPointInRectangle: uses real numbers, so NaN and floating-point rounding are not modelled.
- `src/js/electron-store.js`, `src/main.js`, `src/preload.js`, `src/components/menu.js` and `src/components/editable-div.js` are not part of this model. Only the menu's role as "a task is selected" is used, as `menuEnabled`.

## Findings

| source | as written | input that shows it | evidently intended | confidence | as-written member | corrected member |
|---|---|---|---|---|---|---|
| src/js/tasks-controller.js:346-360 | With no replacement, `_selectedTask` is set to null directly. `selectTask(null)` then calls `deselectTask(null)`, which returns before `disableTaskMenu`. The task menu stays enabled with nothing selected, and its global delete and toggle-complete keys then reach handlers with a null task (`src/components/menu.js:14-27`). | A store with one task, selected, then deleted with the delete handler | Nothing selected and the task menu disabled | medium; not executed | TasksController.Controller.DeleteTaskAndHighlightNextTask, TasksController.DeleteOnlyTaskScenario | TasksController.Controller.DeleteTaskAndHighlightNextTaskCorrected, TasksController.DeleteOnlyTaskCorrectedScenario |
| src/js/tasks-controller.js:138-145 | The purge handler removes every deleted task and never looks at `_selectedTask`. A selected deleted task stays selected after it has left the list. | A store with one deleted task, selected, then purged with confirmation | The purged selection cleared | medium; not executed | TasksController.Controller.PurgeDeletedTasks, TasksController.PurgeSelectedScenario | TasksController.Controller.PurgeDeletedTasksCorrected, TasksController.PurgeSelectedCorrectedScenario |
