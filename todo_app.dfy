// `TodoApp` and the handlers of `Task` (todo.py): the task list, the filter
// tab, the new-task input and the active count, kept in step with the
// `tasks` table. The table is the `store` field; each SQL statement the
// handlers run becomes an update of that map.
module Todo {
  import opened TaskList
  import opened View

  // Each handler's effect on the list, the table and the count, stated on
  // values: the methods below perform the assignments and cite these.

  /** `build`: the loaded list is in step with the table, shown under the
      first tab, and the `completed=0` rows are its active tasks. */
  lemma BuildStep(store: Store, rows: seq<Row>)
    requires RowsOf(store, rows)
    ensures Synced(Loaded(rows), store)
    ensures Displayed(Loaded(rows), Tabs[0])
    ensures Unfinished(rows) == ActiveCount(Loaded(rows))
  {
    LoadedSynced(store, rows);
    UnfinishedIsActiveCount(rows);
  }

  /** `add_task` with a non-empty input: the new task goes to the tail, and
      after the view is recomputed list and table are still in step. */
  lemma AddStep(ts: seq<Task>, store: Store, status: string, id: int, name: string)
    requires Synced(ts, store) && Displayed(ts, status)
    requires id !in store
    ensures var us := ts + [Task(id, name, false, Visible(status, false))];
      && Rendered(ts + [NewTask(id, name)], status) == us
      && Synced(us, store[id := Record(name, Encode(false))])
      && ActiveCount(us) == ActiveCount(ts) + 1
  {
    var t := NewTask(id, name);
    var us := ts + [Task(id, name, false, Visible(status, false))];
    SyncedAppend(ts, store, t, Encode(false));
    RenderedSnoc(ts, t, status);
    SyncedRendered(ts + [t], store[id := Record(name, Encode(false))], status);
    ActiveCountConcat(ts, [us[|ts|]]);
  }

  /** `task_delete` on the task found at position k: cutting it out is
      `list.remove`, and the rest is still in step with the table less its
      record and still shown as the tab says. */
  lemma DeleteStep(ts: seq<Task>, store: Store, status: string, k: nat, id: int)
    requires Synced(ts, store) && Displayed(ts, status)
    requires k < |ts| && ts[k].id == id && (forall j :: 0 <= j < k ==> ts[j].id != id)
    ensures var us := ts[..k] + ts[k + 1..];
      && us == RemoveFirst(ts, id)
      && Synced(us, store - {id})
      && Rendered(us, status) == us
  {
    var a, t, b := ts[..k], ts[k], ts[k + 1..];
    assert ts == a + [t] + b;
    assert NoId(a, id);
    SyncedRemove(a, t, b, store);
    RemoveFirstSplit(a, t, b);
    assert Displayed(a + b, status) by {
      forall i | 0 <= i < |a + b|
        ensures (a + b)[i].visible == Visible(status, (a + b)[i].completed)
      {
        assert (a + b)[i] == ts[if i < k then i else i + 1];
      }
    }
    RenderedFixed(a + b, status);
  }

  /** `task_delete` on an id no task has: nothing to remove anywhere. */
  lemma DeleteAbsentStep(ts: seq<Task>, store: Store, id: int)
    requires Synced(ts, store) && NoId(ts, id)
    ensures RemoveFirst(ts, id) == ts && store - {id} == store
  {
    RemoveFirstAbsent(ts, id);
    NoIdSet(ts, id);
  }

  /** Deleting a task just added restores the list and the table it was
      added to. */
  lemma AddThenDelete(ts: seq<Task>, store: Store, t: Task, r: Record)
    requires Synced(ts, store) && t.id !in store
    ensures RemoveFirst(ts + [t], t.id) == ts
    ensures store[t.id := r] - {t.id} == store
  {
    NoIdSet(ts, t.id);
    RemoveFirstSplit(ts, t, []);
    assert ts + [t] + [] == ts + [t];
    assert ts + [] == ts;
  }

  /** `status_changed` on the task at position k: after the view is
      recomputed, list and table are still in step. */
  lemma StatusStep(ts: seq<Task>, store: Store, status: string, k: nat, completed: bool)
    requires Synced(ts, store) && k < |ts|
    ensures Synced(Rendered(ts[k := ts[k].(completed := completed)], status), SetFlag(store, ts[k].id, completed))
  {
    WithCompletedAt(ts, k, completed);
    SyncedWithCompleted(ts, store, ts[k].id, completed);
    SyncedRendered(ts[k := ts[k].(completed := completed)], SetFlag(store, ts[k].id, completed), status);
  }

  /** `save_task` on the task at position k: list and table stay in step, and
      neither the visibility flags nor the count move. */
  lemma RenameStep(ts: seq<Task>, store: Store, status: string, k: nat, name: string)
    requires Synced(ts, store) && Displayed(ts, status) && k < |ts|
    ensures var us := ts[k := ts[k].(name := name)];
      && Synced(us, SetName(store, ts[k].id, name))
      && Displayed(us, status)
      && ActiveCount(us) == ActiveCount(ts)
  {
    WithNameAt(ts, k, name);
    SyncedWithName(ts, store, ts[k].id, name);
    ActiveCountByCompletion(ts[k := ts[k].(name := name)], ts);
  }

  /** `status_changed` or `save_task` for an id that neither the list nor
      the table holds: neither change touches anything. */
  lemma UpdateAbsentStep(ts: seq<Task>, store: Store, status: string, id: int, completed: bool, name: string)
    requires Synced(ts, store) && Displayed(ts, status) && NoId(ts, id)
    ensures ts == WithName(ts, id, name) && store == SetName(store, id, name)
    ensures ts == Rendered(ts, status) == Rendered(WithCompleted(ts, id, completed), status)
    ensures store == SetFlag(store, id, completed)
  {
    WithAbsent(ts, id, completed, name);
    RenderedFixed(ts, status);
    NoIdSet(ts, id);
  }

  /** The scan of `list.remove`: the position of the first task with the
      given id, or `|ts|` when there is none. */
  method Find(ts: seq<Task>, id: int) returns (k: nat)
    ensures k <= |ts|
    ensures forall j :: 0 <= j < k ==> ts[j].id != id
    ensures k < |ts| ==> ts[k].id == id
  {
    k := 0;
    while k < |ts| && ts[k].id != id
      invariant k <= |ts|
      invariant forall j :: 0 <= j < k ==> ts[j].id != id
    {
      k := k + 1;
    }
  }

  class TodoApp {
    /** `self.tasks.controls`, in display order. */
    var tasks: seq<Task>
    /** The `tasks` table. */
    var store: Store
    /** `self.filter.selected_index`. */
    var selectedIndex: nat
    /** `self.new_task.value`; the empty string stands for an empty text field. */
    var newTask: string
    /** The number shown by `self.items_left`. */
    var itemsLeft: nat

    /** The text of the selected tab. */
    function Status(): string
      reads this
      requires selectedIndex < |Tabs|
    {
      Tabs[selectedIndex]
    }

    /** The application's invariant: list and table in step, every visibility
        flag as the selected tab says, and the count of active tasks current. */
    ghost predicate Valid()
      reads this
    {
      && selectedIndex < |Tabs|
      && Synced(tasks, store)
      && Displayed(tasks, Status())
      && itemsLeft == ActiveCount(tasks)
    }

    /** `TodoApp.build` without its widgets: tab 0 selected, an empty list
        filled by `load_tasks` from the rows `SELECT * FROM tasks` returned,
        and the count taken from `SELECT * FROM tasks WHERE completed=0`. */
    constructor (db: Store, rows: seq<Row>)
      requires RowsOf(db, rows)
      ensures Valid()
      ensures store == db && tasks == Loaded(rows)
      ensures selectedIndex == 0 && newTask == ""
      ensures itemsLeft == Unfinished(rows)
    {
      store := db;
      tasks := [];
      selectedIndex := 0;
      newTask := "";
      itemsLeft := 0;
      new;
      BuildStep(db, rows);
      LoadTasks(rows);
      assert tasks == Loaded(rows);
      itemsLeft := Unfinished(rows);
    }

    /** `load_tasks`: one task per row, appended in row order, with
        `completed = bool(stored value)`. */
    method LoadTasks(rows: seq<Row>)
      modifies this`tasks
      ensures tasks == old(tasks) + Loaded(rows)
    {
      for i := 0 to |rows|
        invariant tasks == old(tasks) + Loaded(rows[..i])
      {
        assert Loaded(rows[..i + 1]) == Loaded(rows[..i]) + [FromRow(rows[i])];
        tasks := tasks + [FromRow(rows[i])];
      }
      assert rows[..|rows|] == rows;
    }

    /** `update_async`: sets each task's visibility from the selected tab,
        keeping the list's order, and recounts the tasks not completed over
        the whole list. */
    method Update()
      requires selectedIndex < |Tabs|
      modifies this`tasks, this`itemsLeft
      ensures tasks == Rendered(old(tasks), Status())
      ensures itemsLeft == ActiveCount(tasks) == ActiveCount(old(tasks))
    {
      var status := Tabs[selectedIndex];
      var count := 0;
      var i := 0;
      while i < |tasks|
        invariant i <= |tasks| == |old(tasks)|
        invariant tasks[..i] == Rendered(old(tasks)[..i], status)
        invariant tasks[i..] == old(tasks)[i..]
        invariant count == ActiveCount(old(tasks)[..i])
      {
        assert old(tasks)[..i + 1] == old(tasks)[..i] + [old(tasks)[i]];
        ActiveCountConcat(old(tasks)[..i], [old(tasks)[i]]);
        tasks := tasks[i := tasks[i].(visible := Visible(status, tasks[i].completed))];
        if !tasks[i].completed {
          count := count + 1;
        }
        i := i + 1;
      }
      assert old(tasks)[..i] == old(tasks);
      ActiveCountRendered(old(tasks), status);
      itemsLeft := count;
    }

    /** `tabs_changed` after the tab `index` is selected: visibility follows
        the new tab, and the active count stays what it was. */
    method TabsChanged(index: nat)
      requires Valid()
      requires index < |Tabs|
      modifies this`selectedIndex, this`tasks, this`itemsLeft
      ensures Valid()
      ensures selectedIndex == index
      ensures tasks == Rendered(old(tasks), Tabs[index])
      ensures itemsLeft == old(itemsLeft)
    {
      selectedIndex := index;
      ghost var before := tasks;
      Update();
      SyncedRendered(before, store, Status());
      ActiveCountRendered(before, Status());
    }

    /** `add_task` with the id the table assigns to the new row. An empty
        input changes nothing; any other input, blanks included, becomes a
        record `(name, 0)` and an uncompleted task at the tail of the list,
        and the input is cleared. */
    method AddTask(id: int)
      requires Valid()
      requires id !in store
      modifies this`tasks, this`store, this`newTask, this`itemsLeft
      ensures Valid()
      ensures old(newTask) == "" ==>
                tasks == old(tasks) && store == old(store) && newTask == "" && itemsLeft == old(itemsLeft)
      ensures old(newTask) != "" ==>
                && tasks == old(tasks) + [Task(id, old(newTask), false, Visible(Status(), false))]
                && store == old(store)[id := Record(old(newTask), 0)]
                && newTask == ""
                && itemsLeft == old(itemsLeft) + 1
    {
      if newTask != "" {
        AddStep(tasks, store, Status(), id, newTask);
        store := store[id := Record(newTask, Encode(false))];
        tasks := tasks + [NewTask(id, newTask)];
        newTask := "";
        Update();
      }
    }

    /** `task_delete`: removes the task with the given id from the list,
        keeping the others in order, recomputes the view, and deletes its
        record. When no task has that id, `list.remove` fails, the error is
        caught, and nothing changes. */
    method TaskDelete(id: int)
      requires Valid()
      modifies this`tasks, this`store, this`itemsLeft
      ensures Valid()
      ensures tasks == RemoveFirst(old(tasks), id)
      ensures store == old(store) - {id}
      ensures NoId(old(tasks), id) ==> tasks == old(tasks) && store == old(store)
    {
      var k := Find(tasks, id);
      if k < |tasks| {
        DeleteStep(tasks, store, Status(), k, id);
        RemoveAt(k);
      } else {
        DeleteAbsentStep(tasks, store, id);
      }
    }

    /** The found case of `task_delete`: the task at position k leaves the
        list, the view is recomputed, and its record is deleted. */
    method RemoveAt(k: nat)
      requires Valid()
      requires k < |tasks| && Synced(tasks[..k] + tasks[k + 1..], store - {tasks[k].id})
      requires Rendered(tasks[..k] + tasks[k + 1..], Status()) == tasks[..k] + tasks[k + 1..]
      modifies this`tasks, this`store, this`itemsLeft
      ensures Valid()
      ensures tasks == old(tasks[..k] + tasks[k + 1..])
      ensures store == old(store - {tasks[k].id})
    {
      var remaining := store - {tasks[k].id};
      tasks := tasks[..k] + tasks[k + 1..];
      Update();
      store := remaining;
    }

    /** `Task.delete_task`: `task_delete`, then the task's own `DELETE`,
        which finds no row left and changes nothing more. */
    method DeleteTask(id: int)
      requires Valid()
      modifies this`tasks, this`store, this`itemsLeft
      ensures Valid()
      ensures tasks == RemoveFirst(old(tasks), id)
      ensures store == old(store) - {id}
    {
      TaskDelete(id);
      assert store - {id} == store;
      store := store - {id};
    }

    /** `clear_task`: walks a snapshot of the list and deletes each completed
        task in list order. No completed task is left in the list or in the
        table, and the others stay, in their order. */
    method ClearTask()
      requires Valid()
      modifies this`tasks, this`store, this`itemsLeft
      ensures Valid()
      ensures tasks == Uncompleted(old(tasks))
      ensures store == old(store) - CompletedIds(old(tasks))
      ensures forall t :: t in tasks ==> !t.completed
      ensures forall id :: id in store ==> store[id].completed == 0
    {
      var snapshot := tasks;
      ClearBounds(snapshot, store);
      for i := 0 to |snapshot|
        invariant Valid()
        invariant tasks == Uncompleted(snapshot[..i]) + snapshot[i..]
        invariant store == old(store) - CompletedIds(snapshot[..i])
      {
        ClearOne(snapshot, i, old(store));
      }
      ClearedNoneCompleted(snapshot, store);
    }

    /** One pass of the loop of `clear_task`, on task `i` of the snapshot:
        a completed task is deleted, any other is kept. */
    method ClearOne(snapshot: seq<Task>, i: nat, ghost initial: Store)
      requires Valid() && i < |snapshot|
      requires tasks == Uncompleted(snapshot[..i]) + snapshot[i..]
      requires store == initial - CompletedIds(snapshot[..i])
      modifies this`tasks, this`store, this`itemsLeft
      ensures Valid()
      ensures tasks == Uncompleted(snapshot[..i + 1]) + snapshot[i + 1..]
      ensures store == initial - CompletedIds(snapshot[..i + 1])
    {
      var t := snapshot[i];
      if t.completed {
        ClearDeleteStep(snapshot, i);
        ClearStoreStep(initial, snapshot, i, store, store - {t.id});
        TaskDelete(t.id);
      } else {
        ClearKeepStep(snapshot, i);
        ClearStoreStep(initial, snapshot, i, store, store);
      }
    }

    /** `Task.status_changed` with the checkbox's new value: the task's
        completion changes in the list, the view and count are recomputed,
        then its record's flag is rewritten. */
    method StatusChanged(id: int, completed: bool)
      requires Valid()
      modifies this`tasks, this`store, this`itemsLeft
      ensures Valid()
      ensures tasks == Rendered(WithCompleted(old(tasks), id, completed), Status())
      ensures store == SetFlag(old(store), id, completed)
    {
      var k := Find(tasks, id);
      if k < |tasks| {
        WithCompletedAt(tasks, k, completed);
        CompleteAt(k, completed);
      } else {
        UpdateAbsentStep(tasks, store, Status(), id, completed, "");
        Update();
      }
    }

    /** The found case of `status_changed`, on the task at position k. */
    method CompleteAt(k: nat, completed: bool)
      requires Valid() && k < |tasks|
      modifies this`tasks, this`store, this`itemsLeft
      ensures Valid()
      ensures tasks == Rendered(old(tasks[k := tasks[k].(completed := completed)]), Status())
      ensures store == old(SetFlag(store, tasks[k].id, completed))
    {
      var changed := tasks[k := tasks[k].(completed := completed)];
      var flagged := SetFlag(store, tasks[k].id, completed);
      StatusStep(tasks, store, Status(), k, completed);
      tasks := changed;
      Update();
      store := flagged;
    }

    /** `Task.save_task` with the edited text: the task's name changes in the
        list and in its record, with no check that the text is non-empty. */
    method SaveTask(id: int, name: string)
      requires Valid()
      modifies this`tasks, this`store
      ensures Valid()
      ensures tasks == WithName(old(tasks), id, name)
      ensures store == SetName(old(store), id, name)
    {
      var k := Find(tasks, id);
      if k < |tasks| {
        WithNameAt(tasks, k, name);
        RenameAt(k, name);
      } else {
        UpdateAbsentStep(tasks, store, Status(), id, false, name);
      }
    }

    /** The found case of `save_task`, on the task at position k. */
    method RenameAt(k: nat, name: string)
      requires Valid() && k < |tasks|
      modifies this`tasks, this`store
      ensures Valid()
      ensures tasks == old(tasks[k := tasks[k].(name := name)])
      ensures store == old(SetName(store, tasks[k].id, name))
    {
      RenameStep(tasks, store, Status(), k, name);
      tasks, store := tasks[k := tasks[k].(name := name)], SetName(store, tasks[k].id, name);
    }
  }
}
