// The filter tabs, which tasks each tab shows, and the count of active
// tasks that `TodoApp.update_async` recomputes (todo.py).
module View {
  import opened TaskList

  /** The tab texts, in the order of `ft.Tabs(...)`; index 0 is selected at build. */
  const Tabs: seq<string> := ["all", "active", "completed"]

  /** Whether a task with the given completion is visible under the tab `status`. */
  predicate Visible(status: string, completed: bool)
  {
    status == "all" || (status == "active" && !completed) || (status == "completed" && completed)
  }

  /** What each of the three tabs shows. */
  lemma TabsShow(completed: bool)
    ensures Visible(Tabs[0], completed)
    ensures Visible(Tabs[1], completed) <==> !completed
    ensures Visible(Tabs[2], completed) <==> completed
  {
  }

  /** Every visibility flag agrees with the tab `status`. */
  predicate Displayed(ts: seq<Task>, status: string)
  {
    forall i :: 0 <= i < |ts| ==> ts[i].visible == Visible(status, ts[i].completed)
  }

  /** The list after the visibility loop of `update_async` under the tab `status`. */
  function Rendered(ts: seq<Task>, status: string): (r: seq<Task>)
    ensures |r| == |ts| && Displayed(r, status)
    ensures forall i :: 0 <= i < |ts| ==>
              r[i].id == ts[i].id && r[i].name == ts[i].name && r[i].completed == ts[i].completed
  {
    seq(|ts|, i requires 0 <= i < |ts| => ts[i].(visible := Visible(status, ts[i].completed)))
  }

  /** Recomputing flags that are already current changes nothing. */
  lemma RenderedFixed(ts: seq<Task>, status: string)
    requires Displayed(ts, status)
    ensures Rendered(ts, status) == ts
  {
  }

  /** Recomputing the flags of a list whose flags are current, with one task
      appended, sets only the new task's flag. */
  lemma RenderedSnoc(ts: seq<Task>, t: Task, status: string)
    requires Displayed(ts, status)
    ensures Rendered(ts + [t], status) == ts + [t.(visible := Visible(status, t.completed))]
  {
  }

  /** Recomputing flags does not touch what the table records. */
  lemma SyncedRendered(ts: seq<Task>, store: Store, status: string)
    requires Synced(ts, store)
    ensures Synced(Rendered(ts, status), store)
  {
    SameIds(Rendered(ts, status), ts);
  }

  /** The tasks the tab `status` selects, in list order. */
  function Shown(ts: seq<Task>, status: string): (r: seq<Task>)
    ensures forall t :: t in r <==> t in ts && Visible(status, t.completed)
  {
    if ts == [] then []
    else if Visible(status, ts[0].completed) then [ts[0]] + Shown(ts[1..], status)
    else Shown(ts[1..], status)
  }

  /** The tasks whose flag makes them appear on screen, in list order. */
  function VisibleTasks(ts: seq<Task>): (r: seq<Task>)
    ensures forall t :: t in r <==> t in ts && t.visible
  {
    if ts == [] then []
    else if ts[0].visible then [ts[0]] + VisibleTasks(ts[1..])
    else VisibleTasks(ts[1..])
  }

  /** The `count` of `update_async`: tasks not completed. */
  function ActiveCount(ts: seq<Task>): (n: nat)
    ensures n <= |ts|
  {
    if ts == [] then 0
    else (if ts[0].completed then 0 else 1) + ActiveCount(ts[1..])
  }

  /** Once the flags are current, what appears on screen is what the tab selects. */
  lemma {:induction false} DisplayedShows(ts: seq<Task>, status: string)
    requires Displayed(ts, status)
    ensures VisibleTasks(ts) == Shown(ts, status)
  {
    if ts != [] {
      DisplayedShows(ts[1..], status);
    }
  }

  /** The tab "all" shows the whole list, in order. */
  lemma {:induction false} ShownAll(ts: seq<Task>)
    ensures Shown(ts, Tabs[0]) == ts
  {
    if ts != [] {
      ShownAll(ts[1..]);
      assert [ts[0]] + ts[1..] == ts;
    }
  }

  /** The tabs "active" and "completed" split the list between them: every
      task is shown by exactly one of them. */
  lemma {:induction false} ShownPartition(ts: seq<Task>)
    ensures multiset(Shown(ts, Tabs[1])) + multiset(Shown(ts, Tabs[2])) == multiset(ts)
  {
    if ts != [] {
      ShownPartition(ts[1..]);
      assert ts == [ts[0]] + ts[1..];
    }
  }

  /** Each tab keeps the list's order. */
  lemma {:induction false} ShownSubseq(ts: seq<Task>, status: string)
    ensures Subseq(Shown(ts, status), ts)
  {
    if ts != [] {
      ShownSubseq(ts[1..], status);
      if Visible(status, ts[0].completed) {
        assert ([ts[0]] + Shown(ts[1..], status))[1..] == Shown(ts[1..], status);
      }
    }
  }

  /** The active count is the length of the "active" tab, whichever tab is selected. */
  lemma {:induction false} ActiveCountIsActiveTab(ts: seq<Task>)
    ensures ActiveCount(ts) == |Shown(ts, Tabs[1])|
  {
    if ts != [] {
      ActiveCountIsActiveTab(ts[1..]);
    }
  }

  /** Clearing completed tasks leaves exactly what the "active" tab shows. */
  lemma {:induction false} ClearedIsActiveTab(ts: seq<Task>)
    ensures Uncompleted(ts) == Shown(ts, Tabs[1])
  {
    if ts != [] {
      ClearedIsActiveTab(ts[1..]);
    }
  }

  lemma {:induction false} ActiveCountConcat(a: seq<Task>, b: seq<Task>)
    ensures ActiveCount(a + b) == ActiveCount(a) + ActiveCount(b)
  {
    if a == [] {
      assert a + b == b;
    } else {
      assert (a + b)[1..] == a[1..] + b;
      ActiveCountConcat(a[1..], b);
    }
  }

  /** The count depends on the completion of each task and nothing else. */
  lemma {:induction false} ActiveCountByCompletion(a: seq<Task>, b: seq<Task>)
    requires |a| == |b|
    requires forall i :: 0 <= i < |a| ==> a[i].completed == b[i].completed
    ensures ActiveCount(a) == ActiveCount(b)
  {
    if a != [] {
      ActiveCountByCompletion(a[1..], b[1..]);
    }
  }

  /** The count does not depend on the visibility flags, hence not on the tab. */
  lemma ActiveCountRendered(ts: seq<Task>, status: string)
    ensures ActiveCount(Rendered(ts, status)) == ActiveCount(ts)
  {
    ActiveCountByCompletion(Rendered(ts, status), ts);
  }

  /** At build time, the rows with `completed=0` are the loaded tasks not completed. */
  lemma {:induction false} UnfinishedIsActiveCount(rows: seq<Row>)
    ensures Unfinished(rows) == ActiveCount(Loaded(rows))
  {
    if rows != [] {
      assert Loaded(rows)[1..] == Loaded(rows[1..]);
      UnfinishedIsActiveCount(rows[1..]);
    }
  }
}
