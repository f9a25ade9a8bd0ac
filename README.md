# ToDo list core, modelled in Dafny

This project models the in-memory bookkeeping of the Flet to-do application in
`todo.py`. It covers:

- the ordered list of tasks in `TodoApp.tasks.controls`;
- the selected filter tab (`all`, `active`, `completed`);
- the "active item(s) left" count;
- the sqlite `tasks` table, modelled as an abstract map from id to
  `(task_name, completed)`.

Every handler that changes this state is a method of the class
`Todo.TodoApp`. Each handler method (the constructor, `AddTask`,
`TaskDelete`, `DeleteTask`, `ClearTask`, `StatusChanged`, `SaveTask` and
`TabsChanged`) is proved to keep the application invariant `Valid()`.
`LoadTasks` and `Update` are steps called inside those handlers: each states
its own effect and is not required to keep the invariant by itself. The
invariant says:

- the list and the table hold the same tasks, with distinct ids;
- every visibility flag is what the selected tab says;
- the count is the number of tasks not completed.

Each method also states its new state in terms of specification functions on
values. The properties the application promises are proved as lemmas about
those functions.

Files:

- `tasks.dfy` (module `TaskList`) holds the task and record types, the
  completion encoding, loading, `list.remove`, clearing, and the
  single-field updates.
- `view.dfy` (module `View`) holds the filter tabs, visibility, what each tab
  shows, and the active count.
- `todo_app.dfy` (module `Todo`) holds the class `TodoApp` and the step
  lemmas that state each handler's effect on plain values.

Conventions:

- A task is a value `Task(id, name, completed, visible)`. Task objects are
  identified by their `task_id`. Under the invariant, removing the object
  and removing the first task with its id are the same operation.
- The id sqlite assigns to a new row (`cursor.lastrowid`) is a parameter of
  `AddTask`, with the precondition that the table does not hold it yet.
- The rows `SELECT * FROM tasks` returns are a parameter of the constructor.
  They must list every record of the table exactly once; their order is
  taken as given.
- `save_task` writes the edited text to the checkbox label shown on screen.
  The model treats that label as the task's name.

## Model

| member | source | states |
|---|---|---|
| TaskList.Encode | todo.py:125 | the flag written for a completion is 0 or 1, and `bool(flag)` reads it back as the same completion |
| TaskList.Decode | todo.py:228 | `bool(completed)`: flag 0 reads as not completed, and 1 or any other integer reads as completed |
| TaskList.NewTask | todo.py:19-29 | `Task.__init__`: the new task has the given id and name and is not completed; a new control is visible |
| TaskList.FromRow | todo.py:226-228 | the task built from one row has the row's id and name and is completed exactly when the flag is non-zero; for a flag of 0 or 1, writing it back gives the row |
| TaskList.Loaded | todo.py:225-233 | one task per row, in row order, with the row's id and name, completed exactly when the row's flag is non-zero, and visible |
| TaskList.ToRow | todo.py:125 | the row stored for a task has its id and name and a flag of 0 or 1 that reads back as its completion |
| TaskList.FlagRoundTrip | todo.py:125 | a stored flag of 0 or 1, read with `bool` and written back, is the same flag |
| TaskList.LoadRoundTrip | todo.py:225-233 | `load_tasks` makes one task per row, in row order; writing each task back gives its row whenever the stored flag is 0 or 1 |
| TaskList.Unfinished | todo.py:173-175 | the rows with `completed=0` are at most all the rows |
| TaskList.IdSet | todo.py:269-271 | every task's id is among the ids of the list |
| TaskList.CompletedIds | todo.py:290-292 | the ids of the completed tasks are among the ids of the list |
| TaskList.CompletedIdsMembers | todo.py:290-292 | an id is among the completed ids if and only if some completed task of the list has it |
| TaskList.LoadedSynced | todo.py:218-235 | the tasks loaded from the rows of a table are in step with that table: distinct ids, one record per task, same name, a flag that reads back as the task's completion |
| TaskList.SyncedAppend | todo.py:243-248 | inserting a record under a fresh id and appending its task keeps list and table in step |
| TaskList.RemoveDistinct | todo.py:269 | cutting one task out of a list with distinct ids leaves distinct ids, none equal to the cut task's |
| TaskList.RemoveIdSet | todo.py:269-271 | the ids left after the cut are the ids before it, less the cut task's id |
| TaskList.SyncedRemove | todo.py:269-271 | removing a task from the list and its record from the table keeps the two in step |
| TaskList.RemoveFirst | todo.py:269 | `list.remove` by id: the list loses exactly one task when some task has the id, and none otherwise |
| TaskList.NoIdSet | todo.py:269 | no task of the list has the id exactly when the id is not among the list's ids |
| TaskList.RemoveFirstSplit | todo.py:269 | `list.remove` on the id whose first task is `t`, preceded by `a` and followed by `b`, yields `a + b`, in order |
| TaskList.RemoveFirstAbsent | todo.py:269-274 | removing an id no task has leaves the list unchanged |
| TaskList.RemoveFirstMembers | todo.py:269 | with distinct ids, a task remains after removal if and only if it was in the list and has a different id |
| TaskList.RemoveFirstSubseq | todo.py:269 | removal keeps the remaining tasks in their relative order |
| TaskList.Uncompleted | todo.py:290-292 | the list `clear_task` leaves is no longer than before and holds no completed task |
| TaskList.UncompletedMembers | todo.py:290-292 | after clearing, a task is in the list if and only if it was there and is not completed |
| TaskList.UncompletedSubseq | todo.py:290-292 | clearing keeps the remaining tasks in their relative order |
| TaskList.ClearedNoneCompleted | todo.py:290-292 | after clearing, no completed task is left in the list and every record of the table holds flag 0 |
| TaskList.ClearStoreStep | todo.py:290-292 | deleting the records of completed tasks one at a time, in list order, deletes the records of all completed tasks of the snapshot |
| TaskList.SyncedNoneCompleted | todo.py:290-292 | when no task of a list in step with the table is completed, every record holds flag 0 |
| TaskList.ClearDeleteStep | todo.py:290-292 | deleting completed task `i` of the snapshot from the partly cleared list gives the list with the first `i + 1` snapshot tasks handled |
| TaskList.ClearKeepStep | todo.py:290-291 | skipping task `i` of the snapshot, one not completed, also handles the first `i + 1` tasks |
| TaskList.WithCompleted | todo.py:122 | setting `completed` on the task with the id keeps the list's length and every position's id, and the task with the id gets the new completion |
| TaskList.WithName | todo.py:107 | renaming the task with the id keeps the list's length and every position's id, and the task with the id gets the new name |
| TaskList.SetFlag | todo.py:125 | `UPDATE tasks SET completed=? WHERE id=?` keeps the table's keys and every other record; the updated record keeps its name and gets the flag `Encode(completed)`, 0 or 1 |
| TaskList.SetName | todo.py:110 | `UPDATE tasks SET task_name=? WHERE id=?` keeps the table's keys and every other record; the updated record keeps its flag and gets the new name |
| TaskList.WithCompletedAt | todo.py:122 | with distinct ids, setting the completion of the task with a given id is setting it at that task's position |
| TaskList.WithNameAt | todo.py:107 | with distinct ids, renaming the task with a given id is renaming it at that task's position |
| TaskList.WithCompletedOnlyTarget | todo.py:122-125 | `status_changed` changes only the completion of the task with that id; every other task, and every other field, is unchanged |
| TaskList.WithNameOnlyTarget | todo.py:107-110 | `save_task` changes only the name of the task with that id; every other task is unchanged |
| TaskList.WithAbsent | todo.py:107-125 | changing an id no task has changes no task |
| TaskList.SyncedWithCompleted | todo.py:122-126 | setting a task's completion in the list and its flag in the table keeps the two in step |
| TaskList.SyncedWithName | todo.py:107-111 | renaming a task in the list and in the table keeps the two in step |
| TaskList.StatusIdempotent | todo.py:122-126 | setting the same completion twice gives the same list and table as setting it once |
| View.TabsShow | todo.py:301-308 | `Visible`, the predicate the loop applies to each task, means: under `all` every task is visible, under `active` exactly the tasks not completed, under `completed` exactly the completed ones |
| View.Rendered | todo.py:303-308 | the visibility loop keeps the list's length, order, ids, names and completions, and leaves every flag as the tab says |
| View.RenderedFixed | todo.py:303-308 | recomputing flags that are already current changes nothing |
| View.RenderedSnoc | todo.py:248-251 | recomputing the flags after an append sets only the new task's flag |
| View.SyncedRendered | todo.py:303-308 | recomputing the flags leaves the list in step with the table |
| View.Shown | todo.py:304-308 | a task is selected by a tab if and only if it is in the list and the tab shows its completion |
| View.VisibleTasks | todo.py:304-308 | a task is on screen if and only if it is in the list and its flag is set |
| View.DisplayedShows | todo.py:303-308 | once the flags are current, the tasks on screen are exactly those the tab selects, in list order |
| View.ShownAll | todo.py:305 | the tab `all` shows the whole list, in order |
| View.ShownPartition | todo.py:306-307 | the tabs `active` and `completed` split the list between them: as multisets, the two together are the list |
| View.ShownSubseq | todo.py:303-308 | every tab shows the tasks in list order |
| View.ActiveCount | todo.py:302-310 | the count is at most the number of tasks |
| View.ActiveCountIsActiveTab | todo.py:309-310 | the count is the number of tasks the `active` tab shows, whichever tab is selected |
| View.ClearedIsActiveTab | todo.py:290-292 | clearing the completed tasks leaves exactly what the `active` tab shows |
| View.ActiveCountByCompletion | todo.py:309-310 | the count depends on the completion of each task and nothing else |
| View.ActiveCountRendered | todo.py:303-310 | the count does not depend on the visibility flags, so not on the selected tab |
| View.UnfinishedIsActiveCount | todo.py:171-175 | at build time, the number of rows with `completed=0` is the count of the loaded list |
| Todo.BuildStep | todo.py:164-175 | the loaded list is in step with the table, is shown under the first tab, and its count is the number of `completed=0` rows |
| Todo.AddStep | todo.py:242-250 | after an add, the list is the old one plus the new uncompleted task at the tail; it is in step with the table plus the record `(name, 0)`; the count is one more |
| Todo.AddThenDelete | todo.py:264-274 | deleting a task just added restores both the list and the table |
| Todo.DeleteStep | todo.py:269-271 | cutting out the task found first with the id is `list.remove`; the rest stays in step with the table less its record, with current flags |
| Todo.DeleteAbsentStep | todo.py:269-274 | with no task of that id there is nothing to remove from the list and no record to delete |
| Todo.StatusStep | todo.py:122-126 | after a completion change and a recomputed view, list and table are in step |
| Todo.RenameStep | todo.py:107-110 | after a rename, list and table are in step, and neither the flags nor the count move |
| Todo.UpdateAbsentStep | todo.py:107-126 | a change for an id that neither list nor table holds changes nothing |
| Todo.Find | todo.py:269 | the position of the first task with the id, or the list's length when no task has it |
| Todo.TodoApp.constructor | todo.py:164-175 | build selects tab 0 and empties the input; the list is the loaded rows, the table is unchanged, the count is the number of `completed=0` rows, and the invariant holds |
| Todo.TodoApp.LoadTasks | todo.py:218-235 | `load_tasks` appends one task per row, in row order, with `completed = bool(flag)` |
| Todo.TodoApp.Update | todo.py:296-311 | `update_async` recomputes every flag from the selected tab in place, keeping the order; it sets the count to the number of tasks not completed in the whole list |
| Todo.TodoApp.TabsChanged | todo.py:276-283 | after a tab change, the flags follow the new tab, the count is unchanged, and the invariant holds |
| Todo.TodoApp.AddTask | todo.py:237-253 | an empty input changes nothing; any other input, blanks included, appends one uncompleted task with the new id at the tail, adds the record `(name, 0)`, clears the input and adds one to the count |
| Todo.TodoApp.TaskDelete | todo.py:264-274 | `task_delete` removes the first task with the id and deletes its record; when no task has the id, nothing changes |
| Todo.TodoApp.RemoveAt | todo.py:269-272 | the task at the found position leaves the list, the view is recomputed, then its record is deleted |
| Todo.TodoApp.DeleteTask | todo.py:130-140 | `delete_task` ends in the same state as `task_delete`: the second DELETE has no further effect |
| Todo.TodoApp.ClearTask | todo.py:285-294 | `clear_task` leaves exactly the uncompleted tasks, in order, and deletes exactly the records of the completed ones; no completed task or flag 1 is left |
| Todo.TodoApp.ClearOne | todo.py:290-292 | one pass of the loop over the snapshot: a completed task is deleted, any other is kept |
| Todo.TodoApp.StatusChanged | todo.py:116-128 | `status_changed` sets the completion of the task with the id, recomputes the view and count, then rewrites that record's flag |
| Todo.TodoApp.CompleteAt | todo.py:122-126 | the found case of `status_changed`, on the task at a position |
| Todo.TodoApp.SaveTask | todo.py:101-114 | `save_task` sets the name of the task with the id, in the list and in its record, with no check that the text is non-empty |
| Todo.TodoApp.RenameAt | todo.py:107-110 | the found case of `save_task`, on the task at a position |

## Left out

- Widgets, layout and the edit/display view toggling (`build`, `edit_task`, the view flags set in `save_task`): these are user interface only.
- `await`, `focus_async` and the framework's own `update_async`: handlers run one at a time and to completion, and overlapping async operations are not modelled.
- Sqlite connection, cursor and table creation: the table is the map `store`, and each statement is the corresponding map update.
- `cursor.lastrowid`: the new row's id is a parameter, required to be fresh.
- The `except ... print` handlers: a handler that raises changes nothing after the point of failure, and the printed message is not modelled. The only failure the model represents is `list.remove` on an absent task, where nothing changes. With handlers running one at a time the task passed to `task_delete` is always in the list, so this failure needs overlapping handlers.
- The text of `items_left`: only the integer count is modelled.
- `task_status_change` adds nothing to `update_async`: it is inlined in `StatusChanged`.
- The order of the rows `SELECT * FROM tasks` returns is decided by sqlite: the constructor takes the rows as given, requiring only that they list every record of the table exactly once.
- UnfinishedIsActiveCount: holds only for integer flags. The `completed` column is declared without NOT NULL, so a row written by another program could hold NULL, which `Record.completed` cannot represent. A NULL flag would load as an active task, but `WHERE completed=0` would not count it. The constructor's count rests on the same assumption.
- In these cases one might expect otherwise, but the model follows the code:
  - names made only of blanks are accepted by `add_task`;
  - a rename to the empty text is accepted;
  - `clear_task` deletes in list order;
  - errors are printed and swallowed, not reported to the user;
  - the handlers do nothing beyond updating the list, the table and the view.
