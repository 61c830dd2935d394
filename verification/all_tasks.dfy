/** The task-list screen: it loads the stored list into its view once, and
    deletes by filtering its view and writing the result back. */
module AllTasks {
  import opened AppState

  /** How many tasks in `ts` carry the id `id` (ids are not forced unique). */
  function CountId(ts: seq<Task>, id: int): (n: nat)
    ensures n <= |ts|
  {
    if ts == [] then 0
    else (if ts[0].id == id then 1 else 0) + CountId(ts[1..], id)
  }

  /** `tasks.filter(task => task.id !== id)`: the tasks whose id differs, in
      their original order. No copy of the id survives, and the list shrinks
      by exactly the number of copies. */
  function RemoveId(ts: seq<Task>, id: int): (r: seq<Task>)
    ensures forall k | 0 <= k < |r| :: r[k].id != id
    ensures |r| == |ts| - CountId(ts, id)
  {
    if ts == [] then []
    else if ts[0].id == id then RemoveId(ts[1..], id)
    else [ts[0]] + RemoveId(ts[1..], id)
  }

  /** Every task with another id is kept with its multiplicity. */
  lemma {:induction false} RemoveIdCounts(ts: seq<Task>, id: int)
    ensures forall t: Task :: multiset(RemoveId(ts, id))[t] == if t.id == id then 0 else multiset(ts)[t]
  {
    if ts != [] {
      RemoveIdCounts(ts[1..], id);
      assert ts == [ts[0]] + ts[1..];
      assert multiset(ts) == multiset{ts[0]} + multiset(ts[1..]);
    }
  }

  /** Filtering distributes over concatenation, so the survivors keep their
      relative order. */
  lemma {:induction false} RemoveIdConcat(a: seq<Task>, b: seq<Task>, id: int)
    ensures RemoveId(a + b, id) == RemoveId(a, id) + RemoveId(b, id)
    decreases |a|
  {
    if a == [] {
      assert a + b == b;
    } else {
      assert (a + b)[0] == a[0];
      assert (a + b)[1..] == a[1..] + b;
      RemoveIdConcat(a[1..], b, id);
    }
  }

  /** A single task with another id passes the filter. */
  lemma RemoveIdSingleton(t: Task, id: int)
    requires t.id != id
    ensures RemoveId([t], id) == [t]
  {
    assert [t][1..] == [];
  }

  /** Two surviving tasks appear in the filtered list in the order they had. */
  lemma RemoveIdKeepsOrder(ts: seq<Task>, id: int, i: int, j: int)
    requires 0 <= i < j < |ts| && ts[i].id != id && ts[j].id != id
    ensures exists i', j' :: 0 <= i' < j' < |RemoveId(ts, id)|
                             && RemoveId(ts, id)[i'] == ts[i] && RemoveId(ts, id)[j'] == ts[j]
  {
    var pre, mid, post := ts[..i], ts[i + 1..j], ts[j + 1..];
    var tail := [ts[j]] + post;
    var rest := mid + tail;
    var whole := [ts[i]] + rest;
    assert ts == pre + whole;
    RemoveIdConcat(pre, whole, id);
    RemoveIdConcat([ts[i]], rest, id);
    RemoveIdConcat(mid, tail, id);
    RemoveIdConcat([ts[j]], post, id);
    RemoveIdSingleton(ts[i], id);
    RemoveIdSingleton(ts[j], id);
    var a, m, p := RemoveId(pre, id), RemoveId(mid, id), RemoveId(post, id);
    var r := RemoveId(ts, id);
    assert r == a + ([ts[i]] + (m + ([ts[j]] + p)));
    var i', j' := |a|, |a| + 1 + |m|;
    assert r[i'] == ts[i];
    assert r[j'] == ts[j];
  }

  /** Filtering is a no-op exactly when no task carries the id. */
  lemma {:induction false} RemoveIdUnchangedIff(ts: seq<Task>, id: int)
    ensures RemoveId(ts, id) == ts <==> CountId(ts, id) == 0
    ensures CountId(ts, id) == 0 <==> forall k | 0 <= k < |ts| :: ts[k].id != id
  {
    if ts != [] {
      RemoveIdUnchangedIff(ts[1..], id);
      assert forall k | 1 <= k < |ts| :: ts[k] == ts[1..][k - 1];
    }
  }

  /** Deleting the same id twice is the same as deleting it once. */
  lemma RemoveIdIdempotent(ts: seq<Task>, id: int)
    ensures RemoveId(RemoveId(ts, id), id) == RemoveId(ts, id)
  {
    RemoveIdUnchangedIff(RemoveId(ts, id), id);
  }

  /** Every task the filter keeps comes from the input. */
  lemma {:induction false} RemoveIdFromInput(ts: seq<Task>, id: int)
    ensures forall k | 0 <= k < |RemoveId(ts, id)| :: RemoveId(ts, id)[k] in ts
  {
    if ts != [] {
      RemoveIdFromInput(ts[1..], id);
      assert forall t | t in ts[1..] :: t in ts;
    }
  }

  /** Dropping the first task keeps ids unique. */
  lemma UniqueIdsTail(ts: seq<Task>)
    requires UniqueIds(ts) && ts != []
    ensures UniqueIds(ts[1..])
  {
    var tail := ts[1..];
    forall i, j | 0 <= i < j < |tail| ensures tail[i].id != tail[j].id {
      assert tail[i] == ts[i + 1] && tail[j] == ts[j + 1];
    }
  }

  /** Filtering keeps ids unique: the survivors are tasks of the input. */
  lemma {:induction false} RemoveIdKeepsUnique(ts: seq<Task>, id: int)
    requires UniqueIds(ts)
    ensures UniqueIds(RemoveId(ts, id))
  {
    if ts != [] {
      var tail := ts[1..];
      UniqueIdsTail(ts);
      RemoveIdKeepsUnique(tail, id);
      if ts[0].id != id {
        var rest := RemoveId(tail, id);
        RemoveIdFromInput(tail, id);
        forall k | 0 <= k < |rest| ensures rest[k].id != ts[0].id {
          var m :| 0 <= m < |tail| && tail[m] == rest[k];
          assert ts[m + 1] == rest[k];
        }
        var r := [ts[0]] + rest;
        forall i, j | 0 <= i < j < |r| ensures r[i].id != r[j].id {
          assert r[j] == rest[j - 1];
          if i > 0 {
            assert r[i] == rest[i - 1];
          }
        }
      }
    }
  }

  /** With unique ids, deleting an id that is present removes exactly one task. */
  lemma {:induction false} RemoveUniqueIdDropsOne(ts: seq<Task>, id: int, k: int)
    requires UniqueIds(ts) && 0 <= k < |ts| && ts[k].id == id
    ensures |RemoveId(ts, id)| == |ts| - 1
  {
    assert CountId(ts, id) == 1 by {
      CountIdOnlyAt(ts, id, k);
    }
  }

  /** With unique ids, only the position `k` carries the id. */
  lemma {:induction false} CountIdOnlyAt(ts: seq<Task>, id: int, k: int)
    requires UniqueIds(ts) && 0 <= k < |ts| && ts[k].id == id
    ensures CountId(ts, id) == 1
  {
    var tail := ts[1..];
    if k == 0 {
      assert forall m | 0 <= m < |tail| :: tail[m].id != id by {
        forall m | 0 <= m < |tail| ensures tail[m].id != id {
          assert tail[m] == ts[m + 1];
        }
      }
      RemoveIdUnchangedIff(tail, id);
    } else {
      assert tail[k - 1] == ts[k];
      UniqueIdsTail(ts);
      CountIdOnlyAt(tail, id, k - 1);
    }
  }

  /** The `loadTasksFromAsyncStorage` effect: a present key replaces the view;
      an absent key or a failed read leaves it as it was. */
  function LoadTasks(st: State, readOk: bool): (r: State)
    ensures r.store == st.store && r.route == st.route
    ensures readOk && st.store.tasks.Some? ==> r.taskView == st.store.tasks.value
    ensures !(readOk && st.store.tasks.Some?) ==> r == st
    ensures r == st.(taskView := r.taskView)
  {
    if readOk && st.store.tasks.Some? then st.(taskView := st.store.tasks.value) else st
  }

  /** `deleteTask` followed by `updateAsyncStorage`: the view minus every task
      with that id is written under "tasks", and only once the write succeeds
      does the view change; a failed write keeps the previous view. */
  function DeleteTask(st: State, id: int, writeOk: bool): (r: State)
    ensures writeOk ==> r.store.tasks == Some(r.taskView) && r.store.user == st.store.user
    ensures writeOk ==> forall k | 0 <= k < |r.taskView| :: r.taskView[k].id != id
    ensures writeOk ==> |r.taskView| == |st.taskView| - CountId(st.taskView, id)
    ensures writeOk ==> forall t: Task :: t.id != id ==> multiset(r.taskView)[t] == multiset(st.taskView)[t]
    // the survivors keep their order: the view is the filtered list of `RemoveIdKeepsOrder`
    ensures writeOk ==> r.taskView == RemoveId(st.taskView, id)
    ensures !writeOk ==> r == st
    ensures r == st.(store := r.store, taskView := r.taskView)
  {
    RemoveIdCounts(st.taskView, id);
    var updated := RemoveId(st.taskView, id);
    if writeOk then st.(store := st.store.(tasks := Some(updated)), taskView := updated) else st
  }

  /** The list shown right after launch is empty, and an absent "tasks" key
      keeps it so. */
  lemma LoadAbsentKeepsEmptyView(persisted: Store, now: int, readOk: bool)
    requires persisted.tasks.None?
    ensures LoadTasks(Launch(persisted, now), readOk).taskView == []
  {
  }
}
