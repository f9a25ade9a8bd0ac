// The to-do records, the `tasks` table they are kept in, and the list
// operations the application performs on them (todo.py).
module TaskList {

  /** One entry of `TodoApp.tasks.controls`: the table's primary key, the text
      shown in the task's checkbox, whether it is ticked, and whether the
      selected filter tab currently shows it. */
  datatype Task = Task(id: int, name: string, completed: bool, visible: bool)

  /** The columns of the `tasks` table for one primary key. The `completed`
      column is a nullable INTEGER. The model takes it to hold an integer: rows
      written by something else may hold any integer (NULL is not modelled),
      and the application itself only writes 0 and 1. */
  datatype Record = Record(name: string, completed: int)

  /** One row of `SELECT * FROM tasks`. */
  datatype Row = Row(id: int, name: string, completed: int)

  /** The `tasks` table, keyed by `id INTEGER PRIMARY KEY`. */
  type Store = map<int, Record>

  /** How a completion status is written to the table (`1 if completed else 0`). */
  function Encode(completed: bool): (flag: int)
    ensures flag == 0 || flag == 1
    ensures Decode(flag) == completed
  {
    if completed then 1 else 0
  }

  /** How a stored flag is read back (`bool(completed)`): any non-zero value is true. */
  function Decode(flag: int): (completed: bool)
    ensures flag == 0 ==> !completed
    ensures flag == 1 ==> completed
    ensures flag != 0 && flag != 1 ==> completed
  {
    flag != 0
  }

  /** Every flag the application writes reads back as itself. */
  lemma FlagRoundTrip(flag: int)
    requires flag == 0 || flag == 1
    ensures Encode(Decode(flag)) == flag
  {
  }

  /** `Task.__init__`: a new task is not completed; a control starts visible. */
  function NewTask(id: int, name: string): (t: Task)
    ensures t.id == id && t.name == name
    ensures !t.completed && t.visible
  {
    Task(id, name, false, true)
  }

  /** The task `load_tasks` builds from one row. */
  function FromRow(r: Row): (t: Task)
    ensures t.id == r.id && t.name == r.name && t.visible
    ensures t.completed <==> r.completed != 0
    ensures r.completed == 0 || r.completed == 1 ==> ToRow(t) == r
  {
    NewTask(r.id, r.name).(completed := Decode(r.completed))
  }

  /** The row the application would store for a task. */
  function ToRow(t: Task): (r: Row)
    ensures r.id == t.id && r.name == t.name
    ensures r.completed == 0 || r.completed == 1
    ensures Decode(r.completed) == t.completed
  {
    Row(t.id, t.name, Encode(t.completed))
  }

  /** The tasks `load_tasks` appends, one per row, in row order. */
  function Loaded(rows: seq<Row>): (ts: seq<Task>)
    ensures |ts| == |rows|
    ensures forall i :: 0 <= i < |rows| ==>
              ts[i].id == rows[i].id && ts[i].name == rows[i].name && ts[i].visible &&
              (ts[i].completed <==> rows[i].completed != 0)
  {
    seq(|rows|, i requires 0 <= i < |rows| => FromRow(rows[i]))
  }

  /** Loading rows and writing the tasks back gives the same rows, as long as
      every stored flag is one the application writes. */
  lemma LoadRoundTrip(rows: seq<Row>)
    requires forall i :: 0 <= i < |rows| ==> rows[i].completed == 0 || rows[i].completed == 1
    ensures |Loaded(rows)| == |rows|
    ensures forall i :: 0 <= i < |rows| ==> ToRow(Loaded(rows)[i]) == rows[i]
  {
    forall i | 0 <= i < |rows|
      ensures ToRow(Loaded(rows)[i]) == rows[i]
    {
      FlagRoundTrip(rows[i].completed);
    }
  }

  /** The number of rows `SELECT * FROM tasks WHERE completed=0` returns. */
  function Unfinished(rows: seq<Row>): (n: nat)
    ensures n <= |rows|
  {
    if rows == [] then 0
    else (if rows[0].completed == 0 then 1 else 0) + Unfinished(rows[1..])
  }

  /** The ids of a task list. */
  function IdSet(ts: seq<Task>): (ids: set<int>)
    ensures forall i :: 0 <= i < |ts| ==> ts[i].id in ids
  {
    set i | 0 <= i < |ts| :: ts[i].id
  }

  /** The ids of the completed tasks of a list. */
  function CompletedIds(ts: seq<Task>): (ids: set<int>)
    ensures ids <= IdSet(ts)
  {
    if ts == [] then {}
    else (if ts[0].completed then {ts[0].id} else {}) + CompletedIds(ts[1..])
  }

  /** An id is among the completed ids exactly when some completed task of
      the list has it. */
  lemma {:induction false} CompletedIdsMembers(ts: seq<Task>, x: int)
    ensures x in CompletedIds(ts) <==> exists i :: 0 <= i < |ts| && ts[i].completed && ts[i].id == x
  {
    if ts != [] {
      CompletedIdsMembers(ts[1..], x);
      if x in CompletedIds(ts[1..]) {
        var i :| 0 <= i < |ts[1..]| && ts[1..][i].completed && ts[1..][i].id == x;
        assert ts[i + 1] == ts[1..][i];
      }
      if exists i :: 0 <= i < |ts| && ts[i].completed && ts[i].id == x {
        var i :| 0 <= i < |ts| && ts[i].completed && ts[i].id == x;
        if i > 0 {
          assert ts[1..][i - 1] == ts[i];
        }
      }
    }
  }

  predicate DistinctIds(ts: seq<Task>)
  {
    forall i, j :: 0 <= i < |ts| && 0 <= j < |ts| && i != j ==> ts[i].id != ts[j].id
  }

  /** No task of the list has the id. */
  predicate NoId(ts: seq<Task>, id: int)
  {
    forall j :: 0 <= j < |ts| ==> ts[j].id != id
  }

  /** `NoId` is absence from the list's id set. */
  lemma NoIdSet(ts: seq<Task>, id: int)
    ensures NoId(ts, id) <==> id !in IdSet(ts)
  {
    if !NoId(ts, id) {
      var j :| 0 <= j < |ts| && ts[j].id == id;
      assert ts[j].id in IdSet(ts);
    }
  }

  /** Lists whose ids agree position by position have the same id set. */
  lemma SameIds(a: seq<Task>, b: seq<Task>)
    requires |a| == |b|
    requires forall i :: 0 <= i < |a| ==> a[i].id == b[i].id
    ensures IdSet(a) == IdSet(b)
  {
    forall x | x in IdSet(a) ensures x in IdSet(b) {
      var i :| 0 <= i < |a| && a[i].id == x;
      assert b[i].id == x;
    }
    forall x | x in IdSet(b) ensures x in IdSet(a) {
      var i :| 0 <= i < |b| && b[i].id == x;
      assert a[i].id == x;
    }
  }

  /** The rows of `SELECT * FROM tasks` list every record of `store` exactly once. */
  predicate RowsOf(store: Store, rows: seq<Row>)
  {
    && (forall i, j :: 0 <= i < |rows| && 0 <= j < |rows| && i != j ==> rows[i].id != rows[j].id)
    && (forall i :: 0 <= i < |rows| ==> rows[i].id in store && store[rows[i].id] == Record(rows[i].name, rows[i].completed))
    && store.Keys == set i | 0 <= i < |rows| :: rows[i].id
  }

  /** The in-memory list and the table hold the same tasks: one record per task,
      with the task's name and a flag that reads back as its completion. */
  predicate Synced(ts: seq<Task>, store: Store)
  {
    && DistinctIds(ts)
    && store.Keys == IdSet(ts)
    && forall i :: 0 <= i < |ts| ==>
         ts[i].id in store && store[ts[i].id].name == ts[i].name && Decode(store[ts[i].id].completed) == ts[i].completed
  }

  /** `load_tasks` on an empty list produces a list in step with the table it read. */
  lemma LoadedSynced(store: Store, rows: seq<Row>)
    requires RowsOf(store, rows)
    ensures Synced(Loaded(rows), store)
  {
    var ts := Loaded(rows);
    assert IdSet(ts) == set i | 0 <= i < |rows| :: rows[i].id by {
      forall x | x in IdSet(ts) ensures x in set i | 0 <= i < |rows| :: rows[i].id {
        var i :| 0 <= i < |ts| && ts[i].id == x;
        assert rows[i].id == x;
      }
      forall x | x in set i | 0 <= i < |rows| :: rows[i].id ensures x in IdSet(ts) {
        var i :| 0 <= i < |rows| && rows[i].id == x;
        assert ts[i].id == x;
      }
    }
  }

  /** Adding a task under an id the table does not hold keeps list and table in step. */
  lemma SyncedAppend(ts: seq<Task>, store: Store, t: Task, flag: int)
    requires Synced(ts, store)
    requires t.id !in store
    requires Decode(flag) == t.completed
    ensures Synced(ts + [t], store[t.id := Record(t.name, flag)])
  {
    var us := ts + [t];
    assert IdSet(us) == IdSet(ts) + {t.id} by {
      forall x | x in IdSet(us) ensures x in IdSet(ts) + {t.id} {
        var i :| 0 <= i < |us| && us[i].id == x;
        if i < |ts| { assert ts[i].id == x; }
      }
      assert us[|ts|].id == t.id;
      forall x | x in IdSet(ts) ensures x in IdSet(us) {
        var i :| 0 <= i < |ts| && ts[i].id == x;
        assert us[i].id == x;
      }
    }
  }

  /** The task at a position has an id different from every task before it. */
  lemma DistinctBefore(a: seq<Task>, t: Task, b: seq<Task>)
    requires DistinctIds(a + [t] + b)
    ensures NoId(a, t.id)
  {
    var ts := a + [t] + b;
    assert ts[|a|] == t;
    forall i | 0 <= i < |a| ensures a[i].id != t.id {
      assert ts[i] == a[i];
    }
  }

  /** Cutting a task out of a list with distinct ids leaves distinct ids,
      none of them the cut task's. */
  lemma RemoveDistinct(a: seq<Task>, t: Task, b: seq<Task>)
    requires DistinctIds(a + [t] + b)
    ensures DistinctIds(a + b) && NoId(a + b, t.id)
  {
    var ts := a + [t] + b;
    var rs := a + b;
    assert ts[|a|] == t;
    forall i | 0 <= i < |rs| ensures rs[i].id != t.id {
      assert rs[i] == ts[if i < |a| then i else i + 1];
    }
    forall i, j | 0 <= i < |rs| && 0 <= j < |rs| && i != j
      ensures rs[i].id != rs[j].id
    {
      assert rs[i] == ts[if i < |a| then i else i + 1];
      assert rs[j] == ts[if j < |a| then j else j + 1];
    }
  }

  /** The ids left after cutting out a task are the ids before, less its id. */
  lemma RemoveIdSet(a: seq<Task>, t: Task, b: seq<Task>)
    requires NoId(a + b, t.id)
    ensures IdSet(a + b) == IdSet(a + [t] + b) - {t.id}
  {
    var ts := a + [t] + b;
    var rs := a + b;
    forall x | x in IdSet(rs) ensures x in IdSet(ts) - {t.id} {
      var i :| 0 <= i < |rs| && rs[i].id == x;
      assert ts[if i < |a| then i else i + 1].id == x;
    }
    forall x | x in IdSet(ts) - {t.id} ensures x in IdSet(rs) {
      var i :| 0 <= i < |ts| && ts[i].id == x;
      assert rs[if i < |a| then i else i - 1].id == x;
    }
  }

  /** Removing one task and its record keeps list and table in step. */
  lemma SyncedRemove(a: seq<Task>, t: Task, b: seq<Task>, store: Store)
    requires Synced(a + [t] + b, store)
    ensures Synced(a + b, store - {t.id})
  {
    var ts := a + [t] + b;
    var rs := a + b;
    RemoveDistinct(a, t, b);
    RemoveIdSet(a, t, b);
    forall i | 0 <= i < |rs|
      ensures rs[i].id in store - {t.id}
      ensures (store - {t.id})[rs[i].id] == store[ts[if i < |a| then i else i + 1].id]
    {
      assert rs[i] == ts[if i < |a| then i else i + 1];
    }
  }

  /** `list.remove`: drops the first task with the given id; a list without
      one is returned as it is (the caller catches the error). */
  function RemoveFirst(ts: seq<Task>, id: int): (r: seq<Task>)
    ensures |r| == (if NoId(ts, id) then |ts| else |ts| - 1)
  {
    if ts == [] then []
    else if ts[0].id == id then ts[1..]
    else [ts[0]] + RemoveFirst(ts[1..], id)
  }

  /** Removing an id that occurs first at position |a| removes exactly that task
      and keeps the others in their order. */
  lemma {:induction false} RemoveFirstSplit(a: seq<Task>, t: Task, b: seq<Task>)
    requires NoId(a, t.id)
    ensures RemoveFirst(a + [t] + b, t.id) == a + b
  {
    if a == [] {
      assert a + [t] + b == [t] + b;
    } else {
      assert (a + [t] + b)[1..] == a[1..] + [t] + b;
      RemoveFirstSplit(a[1..], t, b);
      assert [a[0]] + (a[1..] + b) == a + b;
    }
  }

  /** Removing an id no task has leaves the list unchanged. */
  lemma {:induction false} RemoveFirstAbsent(ts: seq<Task>, id: int)
    requires NoId(ts, id)
    ensures RemoveFirst(ts, id) == ts
  {
    if ts != [] {
      RemoveFirstAbsent(ts[1..], id);
      assert [ts[0]] + ts[1..] == ts;
    }
  }

  /** With distinct ids, removal takes out exactly the task with that id:
      a task remains if and only if it was there and has another id. */
  lemma {:induction false} RemoveFirstMembers(ts: seq<Task>, id: int)
    requires DistinctIds(ts)
    ensures forall t :: t in RemoveFirst(ts, id) <==> t in ts && t.id != id
  {
    if ts != [] {
      assert DistinctIds(ts[1..]) by {
        forall i, j | 0 <= i < |ts[1..]| && 0 <= j < |ts[1..]| && i != j
          ensures ts[1..][i].id != ts[1..][j].id
        {
          assert ts[1..][i] == ts[i + 1] && ts[1..][j] == ts[j + 1];
        }
      }
      RemoveFirstMembers(ts[1..], id);
      assert ts == [ts[0]] + ts[1..];
      if ts[0].id == id {
        forall t | t in ts[1..] ensures t.id != id {
          var j :| 0 <= j < |ts[1..]| && ts[1..][j] == t;
          assert ts[j + 1] == t;
        }
      }
    }
  }

  /** `a` is `b` with some elements left out: the order of what is kept is `b`'s. */
  ghost predicate Subseq(a: seq<Task>, b: seq<Task>)
    decreases |b|
  {
    if a == [] then true
    else if b == [] then false
    else (a[0] == b[0] && Subseq(a[1..], b[1..])) || Subseq(a, b[1..])
  }

  lemma {:induction false} SubseqRefl(s: seq<Task>)
    ensures Subseq(s, s)
  {
    if s != [] {
      SubseqRefl(s[1..]);
    }
  }

  /** Removal keeps the remaining tasks in their relative order. */
  lemma {:induction false} RemoveFirstSubseq(ts: seq<Task>, id: int)
    ensures Subseq(RemoveFirst(ts, id), ts)
  {
    if ts != [] {
      if ts[0].id == id {
        SubseqRefl(ts[1..]);
      } else {
        RemoveFirstSubseq(ts[1..], id);
        assert ([ts[0]] + RemoveFirst(ts[1..], id))[1..] == RemoveFirst(ts[1..], id);
      }
    }
  }

  /** The tasks `clear_task` leaves: those not completed, in list order. */
  function Uncompleted(ts: seq<Task>): (r: seq<Task>)
    ensures |r| <= |ts|
    ensures forall i :: 0 <= i < |r| ==> !r[i].completed
  {
    if ts == [] then []
    else if ts[0].completed then Uncompleted(ts[1..])
    else [ts[0]] + Uncompleted(ts[1..])
  }

  /** After clearing, no completed task is left and every other task is. */
  lemma {:induction false} UncompletedMembers(ts: seq<Task>)
    ensures forall t :: t in Uncompleted(ts) <==> t in ts && !t.completed
  {
    if ts != [] {
      UncompletedMembers(ts[1..]);
      assert ts == [ts[0]] + ts[1..];
    }
  }

  /** Clearing a concatenation clears each part. */
  lemma {:induction false} UncompletedConcat(a: seq<Task>, b: seq<Task>)
    ensures Uncompleted(a + b) == Uncompleted(a) + Uncompleted(b)
  {
    if a == [] {
      assert a + b == b;
    } else {
      assert (a + b)[1..] == a[1..] + b;
      UncompletedConcat(a[1..], b);
    }
  }

  /** Clearing keeps the remaining tasks in their relative order. */
  lemma {:induction false} UncompletedSubseq(ts: seq<Task>)
    ensures Subseq(Uncompleted(ts), ts)
  {
    if ts != [] {
      UncompletedSubseq(ts[1..]);
      if !ts[0].completed {
        assert ([ts[0]] + Uncompleted(ts[1..]))[1..] == Uncompleted(ts[1..]);
      }
    }
  }

  lemma {:induction false} CompletedIdsSnoc(ts: seq<Task>, t: Task)
    ensures CompletedIds(ts + [t]) == CompletedIds(ts) + (if t.completed then {t.id} else {})
  {
    if ts == [] {
      assert [] + [t] == [t];
    } else {
      assert (ts + [t])[1..] == ts[1..] + [t];
      CompletedIdsSnoc(ts[1..], t);
    }
  }

  /** Deleting the records of the completed tasks of a snapshot one at a time,
      in list order, is deleting the records of all of them. */
  lemma ClearStoreStep(initial: Store, s: seq<Task>, i: nat, before: Store, after: Store)
    requires i < |s|
    requires before == initial - CompletedIds(s[..i])
    requires after == if s[i].completed then before - {s[i].id} else before
    ensures after == initial - CompletedIds(s[..i + 1])
  {
    assert s[..i + 1] == s[..i] + [s[i]];
    CompletedIdsSnoc(s[..i], s[i]);
  }

  /** When no task of a list in step with the table is completed, every
      record of the table holds the flag 0. */
  lemma SyncedNoneCompleted(ts: seq<Task>, store: Store)
    requires Synced(ts, store)
    requires forall t :: t in ts ==> !t.completed
    ensures forall id :: id in store ==> store[id].completed == 0
  {
    forall id | id in store
      ensures store[id].completed == 0
    {
      var j :| 0 <= j < |ts| && ts[j].id == id;
      assert ts[j] in ts;
    }
  }

  /** Before the loop of `clear_task` nothing is handled; after it, all is. */
  lemma ClearBounds(s: seq<Task>, initial: Store)
    ensures s == Uncompleted(s[..0]) + s[0..]
    ensures initial == initial - CompletedIds(s[..0])
    ensures Uncompleted(s[..|s|]) + s[|s|..] == Uncompleted(s)
    ensures CompletedIds(s[..|s|]) == CompletedIds(s)
  {
    assert s[..|s|] == s;
  }

  /** After `clear_task`, neither the list nor the table holds a completed task. */
  lemma ClearedNoneCompleted(s: seq<Task>, store: Store)
    requires Synced(Uncompleted(s), store)
    ensures forall t :: t in Uncompleted(s) ==> !t.completed
    ensures forall id :: id in store ==> store[id].completed == 0
  {
    UncompletedMembers(s);
    SyncedNoneCompleted(Uncompleted(s), store);
  }

  /** One step of `clear_task` over a snapshot `s` of the list, with the first
      `i` tasks of the snapshot already handled: deleting task `i`, a completed
      one, gives the list with the first `i + 1` handled. */
  lemma ClearDeleteStep(s: seq<Task>, i: nat)
    requires i < |s| && s[i].completed
    requires DistinctIds(Uncompleted(s[..i]) + s[i..])
    ensures RemoveFirst(Uncompleted(s[..i]) + s[i..], s[i].id) == Uncompleted(s[..i + 1]) + s[i + 1..]
  {
    var done, t, rest := Uncompleted(s[..i]), s[i], s[i + 1..];
    assert done + s[i..] == done + [t] + rest;
    DistinctBefore(done, t, rest);
    RemoveFirstSplit(done, t, rest);
    assert s[..i + 1] == s[..i] + [t];
    UncompletedConcat(s[..i], [t]);
  }

  /** Skipping task `i`, one not completed, also handles the first `i + 1`. */
  lemma ClearKeepStep(s: seq<Task>, i: nat)
    requires i < |s| && !s[i].completed
    ensures Uncompleted(s[..i]) + s[i..] == Uncompleted(s[..i + 1]) + s[i + 1..]
  {
    var t := s[i];
    assert s[..i + 1] == s[..i] + [t];
    UncompletedConcat(s[..i], [t]);
    assert Uncompleted([t]) == [t];
    assert s[i..] == [t] + s[i + 1..];
  }

  /** The list after `status_changed` on the task with the given id. */
  function WithCompleted(ts: seq<Task>, id: int, completed: bool): (r: seq<Task>)
    ensures |r| == |ts|
    ensures forall i :: 0 <= i < |ts| ==> r[i].id == ts[i].id
    ensures forall i :: 0 <= i < |ts| && ts[i].id == id ==> r[i].completed == completed
  {
    seq(|ts|, i requires 0 <= i < |ts| => if ts[i].id == id then ts[i].(completed := completed) else ts[i])
  }

  /** The list after `save_task` on the task with the given id. */
  function WithName(ts: seq<Task>, id: int, name: string): (r: seq<Task>)
    ensures |r| == |ts|
    ensures forall i :: 0 <= i < |ts| ==> r[i].id == ts[i].id
    ensures forall i :: 0 <= i < |ts| && ts[i].id == id ==> r[i].name == name
  {
    seq(|ts|, i requires 0 <= i < |ts| => if ts[i].id == id then ts[i].(name := name) else ts[i])
  }

  /** With distinct ids, changing the task found at position k is changing
      the task with that id. */
  lemma WithCompletedAt(ts: seq<Task>, k: nat, completed: bool)
    requires DistinctIds(ts) && k < |ts|
    ensures WithCompleted(ts, ts[k].id, completed) == ts[k := ts[k].(completed := completed)]
  {
  }

  lemma WithNameAt(ts: seq<Task>, k: nat, name: string)
    requires DistinctIds(ts) && k < |ts|
    ensures WithName(ts, ts[k].id, name) == ts[k := ts[k].(name := name)]
  {
  }

  /** `status_changed` touches the completion of the task with that id and
      nothing else: every other task, and every other field, is as before. */
  lemma WithCompletedOnlyTarget(ts: seq<Task>, id: int, completed: bool)
    ensures |WithCompleted(ts, id, completed)| == |ts|
    ensures forall i :: 0 <= i < |ts| && ts[i].id != id ==> WithCompleted(ts, id, completed)[i] == ts[i]
    ensures forall i :: 0 <= i < |ts| && ts[i].id == id ==>
              WithCompleted(ts, id, completed)[i].completed == completed &&
              WithCompleted(ts, id, completed)[i].(completed := ts[i].completed) == ts[i]
  {
  }

  /** `save_task` touches the name of the task with that id and nothing else. */
  lemma WithNameOnlyTarget(ts: seq<Task>, id: int, name: string)
    ensures |WithName(ts, id, name)| == |ts|
    ensures forall i :: 0 <= i < |ts| && ts[i].id != id ==> WithName(ts, id, name)[i] == ts[i]
    ensures forall i :: 0 <= i < |ts| && ts[i].id == id ==>
              WithName(ts, id, name)[i].name == name &&
              WithName(ts, id, name)[i].(name := ts[i].name) == ts[i]
  {
  }

  /** Changing an id no task has changes nothing. */
  lemma WithAbsent(ts: seq<Task>, id: int, completed: bool, name: string)
    requires NoId(ts, id)
    ensures WithCompleted(ts, id, completed) == ts
    ensures WithName(ts, id, name) == ts
  {
  }

  /** `UPDATE tasks SET completed=? WHERE id=?`: no row, no change. */
  function SetFlag(store: Store, id: int, completed: bool): (st: Store)
    ensures st.Keys == store.Keys
    ensures forall k :: k in store && k != id ==> st[k] == store[k]
    ensures id in store ==> st[id] == Record(store[id].name, Encode(completed))
  {
    if id in store then store[id := store[id].(completed := Encode(completed))] else store
  }

  /** `UPDATE tasks SET task_name=? WHERE id=?`: no row, no change. */
  function SetName(store: Store, id: int, name: string): (st: Store)
    ensures st.Keys == store.Keys
    ensures forall k :: k in store && k != id ==> st[k] == store[k]
    ensures id in store ==> st[id].name == name && st[id].completed == store[id].completed
  {
    if id in store then store[id := store[id].(name := name)] else store
  }

  /** Ticking or unticking a task in both places keeps list and table in step. */
  lemma SyncedWithCompleted(ts: seq<Task>, store: Store, id: int, completed: bool)
    requires Synced(ts, store)
    ensures Synced(WithCompleted(ts, id, completed), SetFlag(store, id, completed))
  {
    var us := WithCompleted(ts, id, completed);
    var st := SetFlag(store, id, completed);
    assert st.Keys == store.Keys;
    assert forall i :: 0 <= i < |ts| ==> us[i].id == ts[i].id;
    SameIds(us, ts);
    forall i | 0 <= i < |us|
      ensures us[i].id in st && st[us[i].id].name == us[i].name && Decode(st[us[i].id].completed) == us[i].completed
    {
      if us[i].id == id {
        assert st[id] == store[id].(completed := Encode(completed));
      } else {
        assert st[us[i].id] == store[ts[i].id];
      }
    }
  }

  /** Renaming a task in both places keeps list and table in step. */
  lemma SyncedWithName(ts: seq<Task>, store: Store, id: int, name: string)
    requires Synced(ts, store)
    ensures Synced(WithName(ts, id, name), SetName(store, id, name))
  {
    var us := WithName(ts, id, name);
    var st := SetName(store, id, name);
    assert st.Keys == store.Keys;
    assert forall i :: 0 <= i < |ts| ==> us[i].id == ts[i].id;
    SameIds(us, ts);
    forall i | 0 <= i < |us|
      ensures us[i].id in st && st[us[i].id].name == us[i].name && Decode(st[us[i].id].completed) == us[i].completed
    {
      if us[i].id == id {
        assert st[id] == store[id].(name := name);
      } else {
        assert st[us[i].id] == store[ts[i].id];
      }
    }
  }

  /** Setting the same completion twice is the same as setting it once. */
  lemma StatusIdempotent(ts: seq<Task>, store: Store, id: int, completed: bool)
    ensures WithCompleted(WithCompleted(ts, id, completed), id, completed) == WithCompleted(ts, id, completed)
    ensures SetFlag(SetFlag(store, id, completed), id, completed) == SetFlag(store, id, completed)
  {
  }
}
