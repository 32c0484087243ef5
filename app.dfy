/** The client's list state in `App`: the pure transforms handed to
    `setTodos`, the view filter and the header counts, and the handlers that
    apply an optimistic change, then the server's answer or a rollback.
    React's hooks, effects and toasts are not modelled; each awaited API
    call is a parameter holding the outcome it produced. */
module App {
  import opened Text
  import opened Todos
  import opened Ordering
  import Server

  /** The outcome of an awaited API call: a body with `success: true` and its
      `data`, a body with `success: false`, or a rejected promise. */
  datatype Reply<T> = Succeeded(data: T) | Declined | Threw

  // ----- setTodos transforms -----

  /** `prev.map(todo => todo.id === id ? { ...todo, completed } : todo)` */
  function SetCompleted(s: seq<Todo>, id: Id, completed: bool): (r: seq<Todo>)
    ensures |r| == |s| && Ids(r) == Ids(s)
    ensures forall i :: 0 <= i < |s| && s[i].id == id ==> r[i] == s[i].(completed := completed)
    ensures forall i :: 0 <= i < |s| && s[i].id != id ==> r[i] == s[i]
  {
    var r := seq(|s|, i requires 0 <= i < |s| =>
      if s[i].id == id then s[i].(completed := completed) else s[i]);
    assert forall i :: 0 <= i < |s| ==> Ids(r)[i] == Ids(s)[i];
    r
  }

  /** `prev.map(todo => todo.id === id ? response.data : todo)` */
  function ReplaceById(s: seq<Todo>, id: Id, t: Todo): (r: seq<Todo>)
    ensures |r| == |s|
    ensures forall i :: 0 <= i < |s| && s[i].id == id ==> r[i] == t
    ensures forall i :: 0 <= i < |s| && s[i].id != id ==> r[i] == s[i]
  {
    seq(|s|, i requires 0 <= i < |s| => if s[i].id == id then t else s[i])
  }

  /** Reverting a toggle restores the list, provided every item with that id
      had the opposite of the new flag before the toggle. */
  lemma ToggleRevertRestores(s: seq<Todo>, id: Id, completed: bool)
    requires forall i :: 0 <= i < |s| && s[i].id == id ==> s[i].completed == !completed
    ensures SetCompleted(SetCompleted(s, id, completed), id, !completed) == s
  {
  }

  /** A toggle is always requested with the negation of the clicked item's
      flag, so for a list with distinct ids the optimistic toggle followed by
      its revert gives back the list as it was. */
  lemma ClickToggleRevertRestores(s: seq<Todo>, j: nat)
    requires Distinct(Ids(s)) && j < |s|
    ensures var id, flag := s[j].id, !s[j].completed;
      SetCompleted(SetCompleted(s, id, flag), id, !flag) == s
  {
    forall i | 0 <= i < |s| && s[i].id == s[j].id ensures s[i].completed == s[j].completed {
      assert Ids(s)[i] == Ids(s)[j];
    }
    ToggleRevertRestores(s, s[j].id, !s[j].completed);
  }

  /** A client list in step with the store stays in step after a toggle
      succeeds: the optimistic flag followed by the server's copy of the item
      is what the update handler left in the store. */
  lemma ToggleMatchesServer(s: seq<Todo>, j: nat, completed: bool, now: Timestamp)
    requires Distinct(Ids(s)) && j < |s|
    ensures var updated := Server.Patched(s[j], None, Some(completed), now);
      ReplaceById(SetCompleted(s, s[j].id, completed), s[j].id, updated) == s[j := updated]
  {
    forall i | 0 <= i < |s| && i != j ensures s[i].id != s[j].id {
      assert Ids(s)[i] != Ids(s)[j];
    }
  }

  /** `prev.filter(todo => todo.id !== id)`: every item with that id is gone,
      every other one stays, in order. */
  function RemoveById(s: seq<Todo>, id: Id): (r: seq<Todo>)
    ensures id !in Ids(r)
    ensures forall x :: x in r <==> x in s && x.id != id
  {
    KeepMembers(s, NotId(id));
    var r := Keep(s, NotId(id));
    assert forall i :: 0 <= i < |r| ==> r[i] in r;
    r
  }

  /** With distinct ids the optimistic delete removes the same single item
      the server's splice removes. */
  lemma RemoveMatchesServer(s: seq<Todo>, j: nat)
    requires Distinct(Ids(s)) && j < |s|
    ensures RemoveById(s, s[j].id) == s[..j] + s[j + 1..]
  {
    var p := NotId(s[j].id);
    forall i | 0 <= i < |s| && i != j ensures p(s[i]) {
      assert Ids(s)[i] != Ids(s)[j];
    }
    KeepSplice(s, j, p);
  }

  /** Filtering out exactly the element at `j` is splicing it out. */
  lemma KeepSplice(s: seq<Todo>, j: nat, p: Todo -> bool)
    requires j < |s| && !p(s[j])
    requires forall i :: 0 <= i < |s| && i != j ==> p(s[i])
    ensures Keep(s, p) == s[..j] + s[j + 1..]
  {
    SplicePartsPass(s, j, p);
    KeepJoin(s[..j], s[j], s[j + 1..], p);
    assert s == s[..j] + [s[j]] + s[j + 1..];
  }

  lemma SplicePartsPass(s: seq<Todo>, j: nat, p: Todo -> bool)
    requires j < |s|
    requires forall i :: 0 <= i < |s| && i != j ==> p(s[i])
    ensures forall x :: x in s[..j] ==> p(x)
    ensures forall x :: x in s[j + 1..] ==> p(x)
  {
    forall x | x in s[..j] ensures p(x) {
      var i :| 0 <= i < j && s[..j][i] == x;
    }
    forall x | x in s[j + 1..] ensures p(x) {
      var i :| 0 <= i < |s| - j - 1 && s[j + 1..][i] == x;
      assert s[j + 1 + i] == x;
    }
  }

  lemma KeepJoin(front: seq<Todo>, x: Todo, back: seq<Todo>, p: Todo -> bool)
    requires !p(x)
    requires forall y :: y in front ==> p(y)
    requires forall y :: y in back ==> p(y)
    ensures Keep(front + [x] + back, p) == front + back
  {
    calc {
      Keep(front + [x] + back, p);
      { KeepAppend(front + [x], back, p); }
      Keep(front + [x], p) + Keep(back, p);
      { KeepAppend(front, [x], p); }
      Keep(front, p) + Keep([x], p) + Keep(back, p);
      { KeepRejected(x, p); }
      Keep(front, p) + Keep(back, p);
      { KeepAll(front, p); KeepAll(back, p); }
      front + back;
    }
  }

  lemma KeepRejected(x: Todo, p: Todo -> bool)
    requires !p(x)
    ensures Keep([x], p) == []
  {
    assert [x][1..] == [];
  }

  /** `todoIds.map((id, index) => ({ ...todos.find(t => t.id === id), order: index }))`
      for ids that all occur in the list: the result lists exactly `ids`,
      numbered 0, 1, …, and each entry is a list item with only its order
      changed. */
  function OptimisticReorder(s: seq<Todo>, ids: seq<Id>): (r: seq<Todo>)
    requires forall k :: 0 <= k < |ids| ==> ids[k] in Ids(s)
    ensures |r| == |ids| && Ids(r) == ids
    ensures forall k :: 0 <= k < |ids| ==> r[k].order == k
    ensures forall k :: 0 <= k < |ids| ==>
      exists j :: 0 <= j < |s| && r[k] == s[j].(order := k) && forall i :: 0 <= i < j ==> s[i].id != ids[k]
  {
    var r := seq(|ids|, k requires 0 <= k < |ids| => s[Find(s, ids[k]).value].(order := k));
    assert forall k :: 0 <= k < |ids| ==> Ids(r)[k] == ids[k];
    r
  }

  /** For a full permutation of a list with distinct ids (what a drag in the
      "all" view sends), the optimistic reorder is exactly what the server's
      reorder returns. */
  lemma OptimisticReorderMatchesServer(s: seq<Todo>, ids: seq<Id>)
    requires Distinct(Ids(s)) && Distinct(ids)
    requires multiset(ids) == multiset(Ids(s))
    ensures forall k :: 0 <= k < |ids| ==> ids[k] in Ids(s)
    ensures OptimisticReorder(s, ids) == SortByOrder(Server.Reassigned(s, ids))
  {
    forall k | 0 <= k < |ids| ensures ids[k] in Ids(s) {
      assert ids[k] in multiset(Ids(s));
    }
    var r := OptimisticReorder(s, ids);
    var q := SortByOrder(Server.Reassigned(s, ids));
    Server.ReorderByPermutation(s, ids);
    forall k | 0 <= k < |ids| ensures r[k] == q[k] {
      ReorderEntryMatches(s, ids, q, k);
    }
  }

  /** Entry `k` of both results is the item with id `ids[k]` at order `k`. */
  lemma ReorderEntryMatches(s: seq<Todo>, ids: seq<Id>, q: seq<Todo>, k: nat)
    requires Distinct(Ids(s)) && Distinct(ids)
    requires multiset(ids) == multiset(Ids(s))
    requires forall k :: 0 <= k < |ids| ==> ids[k] in Ids(s)
    requires q == SortByOrder(Server.Reassigned(s, ids)) && k < |q| && k < |ids|
    ensures OptimisticReorder(s, ids)[k] == q[k]
  {
    var a := Server.Reassigned(s, ids);
    Server.ReorderByPermutation(s, ids);
    Server.ReassignedByPermutation(s, ids);
    assert q[k] in multiset(a);
    var j :| 0 <= j < |a| && q[k] == a[j];
    assert s[j].id == ids[k];
    FindDistinct(s, j);
  }

  // ----- the delete rollback -----

  /** The failure path of the delete handler as written: the `catch` block
      reads `todoToDelete`, a `const` declared inside the `try` block, so
      it fails before calling `setTodos` and the optimistic removal stays. */
  function DeleteFailedAsWritten(s: seq<Todo>, id: Id): (r: seq<Todo>)
    ensures id !in Ids(r)
    ensures forall x :: x in r <==> x in s && x.id != id
  {
    RemoveById(s, id)
  }

  /** When the server refused the delete, the item it still holds is gone
      from the client's list. */
  lemma DeleteRollbackLosesItem(t: Todo)
    ensures DeleteFailedAsWritten([t], t.id) == []
    ensures t.id in Ids([t])
  {
    assert t.id == Ids([t])[0];
  }

  /** The intended rollback, `[...prev, todoToDelete].sort(byOrder)`: the
      saved item goes back in and the list is sorted by order. */
  function RestoreDeleted(prev: seq<Todo>, todoToDelete: Option<Todo>): (r: seq<Todo>)
    ensures todoToDelete.None? ==> r == prev
    ensures todoToDelete.Some? ==> SortedByOrder(r)
    ensures todoToDelete.Some? ==> multiset(r) == multiset(prev) + multiset{todoToDelete.value}
  {
    if todoToDelete.Some? then SortByOrder(prev + [todoToDelete.value]) else prev
  }

  /** The failure path with the intended rollback: remove, then restore. */
  function DeleteFailed(s: seq<Todo>, id: Id): (r: seq<Todo>)
    ensures id !in Ids(s) ==> r == s
  {
    assert id !in Ids(s) ==> RemoveById(s, id) == s by {
      if id !in Ids(s) {
        KeepAll(s, NotId(id));
      }
    }
    RestoreDeleted(RemoveById(s, id), FindTodo(s, id))
  }

  /** For a list with distinct ids and distinct orders in ascending order
      (what the server lists), the intended rollback gives back exactly the
      list before the delete. */
  lemma DeleteFailedRestores(s: seq<Todo>, j: nat)
    requires Distinct(Ids(s)) && StrictlyOrdered(s) && j < |s|
    ensures DeleteFailed(s, s[j].id) == s
  {
    FindDistinct(s, j);
    assert FindTodo(s, s[j].id) == Some(s[j]);
    RemoveMatchesServer(s, j);
    ReinsertSorted(s, j);
  }

  /** Putting a spliced-out item back and sorting restores a list whose
      orders ascend strictly. */
  lemma ReinsertSorted(s: seq<Todo>, j: nat)
    requires StrictlyOrdered(s) && j < |s|
    ensures SortByOrder(s[..j] + s[j + 1..] + [s[j]]) == s
  {
    var t := s[..j] + s[j + 1..] + [s[j]];
    calc {
      multiset(t);
      multiset(s[..j]) + multiset(s[j + 1..]) + multiset{s[j]};
      { assert s == s[..j] + [s[j]] + s[j + 1..]; }
      multiset(s);
    }
    SortedUnique(SortByOrder(t), s);
  }

  /** Sorting the list in place does not change the header counts. */
  lemma SortKeepsCounts(s: seq<Todo>)
    ensures CountStats(SortByOrder(s)) == CountStats(s)
  {
    var r := SortByOrder(s);
    assert |r| == |multiset(r)| == |multiset(s)| == |s|;
    KeepLengthPermutation(r, s, IsDone);
  }

  /** The client's state: the list, the shown view, the header counts, the
      busy flag, the error screen text and the first-load spinner. */
  class AppState {
    var todos: seq<Todo>
    var filteredTodos: seq<Todo>
    var currentFilter: string
    var stats: Counts
    var loading: bool
    var initialLoading: bool
    var error: Option<string>

    /** The state before the first load. */
    constructor ()
      ensures todos == [] && filteredTodos == [] && currentFilter == "all"
      ensures stats == Counts(0, 0, 0) && !loading && initialLoading && error == None
    {
      todos, filteredTodos, currentFilter := [], [], "all";
      stats, loading, initialLoading, error := Counts(0, 0, 0), false, true, None;
    }

    /** `filterTodos`: the items of the current view sorted by order. In
        the "all" case `filtered` is the `todos` array itself, so the
        in-place sort reorders the list state as well. */
    method FilterTodos()
      modifies this
      ensures filteredTodos == SortByOrder(Select(old(todos), ViewOf(currentFilter)))
      ensures todos == if ViewOf(currentFilter) == All then filteredTodos else old(todos)
      ensures currentFilter == old(currentFilter) && stats == old(stats)
      ensures loading == old(loading) && initialLoading == old(initialLoading) && error == old(error)
    {
      var filtered := todos;
      if currentFilter == "active" {
        filtered := Keep(todos, IsActive);
      } else if currentFilter == "completed" {
        filtered := Keep(todos, IsDone);
      } else {
        filtered := todos;
      }
      filtered := SortByOrder(filtered);
      if currentFilter != "active" && currentFilter != "completed" {
        todos := filtered;
      }
      filteredTodos := filtered;
    }

    /** `updateStats`: the counts of the current list. */
    method UpdateStats()
      modifies this
      ensures stats == CountStats(todos)
      ensures stats.total == |todos| && stats.completed == |Keep(todos, IsDone)|
      ensures stats.active == stats.total - stats.completed
      ensures todos == old(todos) && filteredTodos == old(filteredTodos)
      ensures currentFilter == old(currentFilter) && loading == old(loading)
      ensures initialLoading == old(initialLoading) && error == old(error)
    {
      var total := |todos|;
      var completed := |Keep(todos, IsDone)|;
      DoneActivePartition(todos);
      stats := Counts(total, total - completed, completed);
    }

    /** The effect that runs whenever the list or the filter changes:
        `filterTodos()` then `updateStats()`. The counts are those of the list
        before the effect, since the in-place sort of the "all" view only
        permutes it. */
    method Refresh()
      modifies this
      ensures filteredTodos == SortByOrder(Select(old(todos), ViewOf(currentFilter)))
      ensures todos == if ViewOf(currentFilter) == All then filteredTodos else old(todos)
      ensures stats == CountStats(old(todos)) && stats == CountStats(todos)
      ensures currentFilter == old(currentFilter) && loading == old(loading)
      ensures initialLoading == old(initialLoading) && error == old(error)
    {
      FilterTodos();
      SortKeepsCounts(old(todos));
      UpdateStats();
    }

    /** `loadTodos`: clears the error, then takes the server's list, or
        shows the error screen if the call throws; either way the first-load
        spinner ends. A body with `success: false` still replaces the list
        with its `data`, which is then absent, so the list becomes empty. */
    method LoadTodos(reply: Reply<seq<Todo>>)
      modifies this
      ensures reply.Succeeded? ==> todos == reply.data && error == None
      ensures reply.Declined? ==> todos == [] && error == None
      ensures reply.Threw? ==>
        todos == old(todos) && error == Some("Failed to load todos. Please check if the server is running.")
      ensures !initialLoading
      ensures filteredTodos == old(filteredTodos) && currentFilter == old(currentFilter)
      ensures stats == old(stats) && loading == old(loading)
    {
      error := None;
      match reply {
        case Succeeded(data) => todos := data;
        case Declined => todos := [];
        case Threw =>
          error := Some("Failed to load todos. Please check if the server is running.");
      }
      initialLoading := false;
    }

    /** `handleRetry` on the error screen: shows the first-load spinner and
        loads again, so a retry that reaches the server clears the error. */
    method Retry(reply: Reply<seq<Todo>>)
      modifies this
      ensures reply.Succeeded? ==> todos == reply.data && error == None
      ensures reply.Declined? ==> todos == [] && error == None
      ensures reply.Threw? ==>
        todos == old(todos) && error == Some("Failed to load todos. Please check if the server is running.")
      ensures !initialLoading
      ensures filteredTodos == old(filteredTodos) && currentFilter == old(currentFilter)
      ensures stats == old(stats) && loading == old(loading)
    {
      initialLoading := true;
      LoadTodos(reply);
    }

    /** `handleAddTodo`: on success the created item is appended; otherwise
        the list is unchanged. The busy flag is set for the call and cleared
        at the end. */
    method AddTodo(reply: Reply<Todo>)
      modifies this
      ensures reply.Succeeded? ==> todos == old(todos) + [reply.data]
      ensures !reply.Succeeded? ==> todos == old(todos)
      ensures !loading
      ensures filteredTodos == old(filteredTodos) && currentFilter == old(currentFilter)
      ensures stats == old(stats) && initialLoading == old(initialLoading) && error == old(error)
    {
      loading := true;
      if reply.Succeeded? {
        todos := todos + [reply.data];
      }
      loading := false;
    }

    /** `handleToggleTodo`: sets the flag optimistically; on success puts
        the server's copy in place of the item, on a throw flips the flag
        back, on `success: false` keeps the optimistic flag. */
    method ToggleTodo(id: Id, completed: bool, reply: Reply<Todo>)
      modifies this
      ensures var optimistic := SetCompleted(old(todos), id, completed);
        todos == match reply
          case Succeeded(t) => ReplaceById(optimistic, id, t)
          case Declined => optimistic
          case Threw => SetCompleted(optimistic, id, !completed)
      ensures filteredTodos == old(filteredTodos) && currentFilter == old(currentFilter)
      ensures stats == old(stats) && loading == old(loading)
      ensures initialLoading == old(initialLoading) && error == old(error)
    {
      todos := SetCompleted(todos, id, completed);
      match reply {
        case Succeeded(t) => todos := ReplaceById(todos, id, t);
        case Declined =>
        case Threw => todos := SetCompleted(todos, id, !completed);
      }
    }

    /** `handleDeleteTodo`, with the rollback the handler intends: the item
        is removed optimistically and put back if the call throws. */
    method DeleteTodo(id: Id, reply: Reply<Todo>)
      modifies this
      ensures reply.Threw? ==> todos == DeleteFailed(old(todos), id)
      ensures !reply.Threw? ==> todos == RemoveById(old(todos), id)
      ensures filteredTodos == old(filteredTodos) && currentFilter == old(currentFilter)
      ensures stats == old(stats) && loading == old(loading)
      ensures initialLoading == old(initialLoading) && error == old(error)
    {
      var todoToDelete := FindTodo(todos, id);
      todos := RemoveById(todos, id);
      if reply.Threw? {
        todos := RestoreDeleted(todos, todoToDelete);
      }
    }

    /** `handleClearCompleted`: drops the completed items optimistically; if
        the call throws, the list is reloaded, with `reload` the outcome of
        that second call. The busy flag ends cleared. */
    method ClearCompleted(reply: Reply<seq<Todo>>, reload: Reply<seq<Todo>>)
      modifies this
      ensures !reply.Threw? ==> todos == Keep(old(todos), IsActive)
      ensures reply.Threw? && reload.Succeeded? ==> todos == reload.data
      ensures reply.Threw? && reload.Declined? ==> todos == []
      ensures reply.Threw? && reload.Threw? ==> todos == Keep(old(todos), IsActive)
      ensures !reply.Threw? ==> error == old(error) && initialLoading == old(initialLoading)
      ensures reply.Threw? ==> !initialLoading
      ensures reply.Threw? && reload.Threw? ==>
        error == Some("Failed to load todos. Please check if the server is running.")
      ensures reply.Threw? && !reload.Threw? ==> error == None
      ensures !loading
      ensures filteredTodos == old(filteredTodos) && currentFilter == old(currentFilter)
      ensures stats == old(stats)
    {
      loading := true;
      todos := Keep(todos, IsActive);
      if reply.Threw? {
        LoadTodos(reload);
      }
      loading := false;
    }

    /** `handleReorderTodos` for ids taken from the list: renumbers
        optimistically, then adopts the server's list on success or reloads
        if the call throws. */
    method ReorderTodos(ids: seq<Id>, reply: Reply<seq<Todo>>, reload: Reply<seq<Todo>>)
      requires forall k :: 0 <= k < |ids| ==> ids[k] in Ids(todos)
      modifies this
      ensures reply.Succeeded? ==> todos == reply.data
      ensures reply.Declined? ==> todos == OptimisticReorder(old(todos), ids)
      ensures reply.Threw? && reload.Succeeded? ==> todos == reload.data
      ensures reply.Threw? && reload.Declined? ==> todos == []
      ensures reply.Threw? && reload.Threw? ==> todos == OptimisticReorder(old(todos), ids)
      ensures !reply.Threw? ==> error == old(error) && initialLoading == old(initialLoading)
      ensures reply.Threw? ==> !initialLoading
      ensures reply.Threw? && reload.Threw? ==>
        error == Some("Failed to load todos. Please check if the server is running.")
      ensures reply.Threw? && !reload.Threw? ==> error == None
      ensures filteredTodos == old(filteredTodos) && currentFilter == old(currentFilter)
      ensures stats == old(stats) && loading == old(loading)
    {
      todos := OptimisticReorder(todos, ids);
      match reply {
        case Succeeded(data) => todos := data;
        case Declined =>
        case Threw => LoadTodos(reload);
      }
    }

    /** The filter tabs' `setCurrentFilter`. */
    method SetFilter(filter: string)
      modifies this
      ensures currentFilter == filter
      ensures todos == old(todos) && filteredTodos == old(filteredTodos) && stats == old(stats)
      ensures loading == old(loading) && initialLoading == old(initialLoading) && error == old(error)
    {
      currentFilter := filter;
    }
  }
}
