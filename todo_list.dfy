/** The list component: dropping a dragged item at a new position, which
    sends the new id sequence to the reorder handler, and the message shown
    for an empty view. */
module TodoList {
  import opened Todos
  import opened Ordering
  import App
  import Server

  /** `items.splice(i, 1)`: the list without its element at `i`. */
  function RemoveAt<T>(s: seq<T>, i: nat): (r: seq<T>)
    requires i < |s|
    ensures |r| == |s| - 1
    ensures forall k :: 0 <= k < |r| ==> r[k] == if k < i then s[k] else s[k + 1]
  {
    s[..i] + s[i + 1..]
  }

  /** `items.splice(i, 0, x)`: `x` inserted before position `i`. */
  function InsertAt<T>(s: seq<T>, i: nat, x: T): (r: seq<T>)
    requires i <= |s|
    ensures |r| == |s| + 1 && r[i] == x
    ensures forall k :: 0 <= k < |s| ==> r[if k < i then k else k + 1] == s[k]
  {
    s[..i] + [x] + s[i..]
  }

  /** The position in the old list of the item that a move from `from` to
      `to` places at `i`. */
  function Source(from: nat, to: nat, i: nat): nat {
    if i == to then from
    else if from < to && from <= i < to then i + 1
    else if to < from && to < i <= from then i - 1
    else i
  }

  /** The list after the item at `from` is moved to `to`: it lands at `to`,
      and removing it again from there gives back the list with it removed
      from `from`, so every other item keeps its relative order. */
  function Move<T>(s: seq<T>, from: nat, to: nat): (r: seq<T>)
    requires from < |s| && to < |s|
    ensures |r| == |s| && r[to] == s[from]
    ensures RemoveAt(r, to) == RemoveAt(s, from)
  {
    var r := seq(|s|, i requires 0 <= i < |s| => s[Source(from, to, i)]);
    assert forall k :: 0 <= k < |s| - 1 ==> RemoveAt(r, to)[k] == RemoveAt(s, from)[k];
    r
  }

  /** Two lists of one length that agree at `i` and agree once their
      elements at `i` are removed are equal. */
  lemma {:induction false} Determined<T>(a: seq<T>, b: seq<T>, i: nat)
    requires |a| == |b| && i < |a| && a[i] == b[i]
    requires RemoveAt(a, i) == RemoveAt(b, i)
    ensures a == b
  {
    forall k | 0 <= k < |a| ensures a[k] == b[k] {
      if k < i {
        assert RemoveAt(a, i)[k] == a[k];
      } else if k > i {
        assert RemoveAt(a, i)[k - 1] == a[k];
      }
    }
  }

  /** A move permutes the list. */
  lemma MovePermutes<T>(s: seq<T>, from: nat, to: nat)
    requires from < |s| && to < |s|
    ensures multiset(Move(s, from, to)) == multiset(s)
  {
    var r := Move(s, from, to);
    RemoveAtMultiset(r, to);
    RemoveAtMultiset(s, from);
  }

  lemma RemoveAtMultiset<T>(s: seq<T>, i: nat)
    requires i < |s|
    ensures multiset(s) == multiset(RemoveAt(s, i)) + multiset{s[i]}
  {
    assert s == s[..i] + [s[i]] + s[i + 1..];
  }

  /** Dropping an item where it was picked up changes nothing. */
  lemma MoveInPlace<T>(s: seq<T>, i: nat)
    requires i < |s|
    ensures Move(s, i, i) == s
  {
    Determined(Move(s, i, i), s, i);
  }

  /** Moving the item back to where it came from undoes the move. */
  lemma MoveBack<T>(s: seq<T>, from: nat, to: nat)
    requires from < |s| && to < |s|
    ensures Move(Move(s, from, to), to, from) == s
  {
    Determined(Move(Move(s, from, to), to, from), s, from);
  }

  /** The two splices compute the move. */
  lemma SplicesAreMove<T>(s: seq<T>, from: nat, to: nat)
    requires from < |s| && to < |s|
    ensures InsertAt(RemoveAt(s, from), to, s[from]) == Move(s, from, to)
  {
    var m := InsertAt(RemoveAt(s, from), to, s[from]);
    assert RemoveAt(m, to) == RemoveAt(s, from);
    Determined(m, Move(s, from, to), to);
  }

  /** `handleDragEnd` for the shown list `todos`: a drop outside the list
      sends nothing; otherwise the shown items are copied, the dragged one
      is spliced out and spliced in at the drop position, and the ids in the
      new sequence are sent to the reorder handler. The drag library only
      reports positions inside the list. */
  method HandleDragEnd(todos: seq<Todo>, source: nat, destination: Option<nat>)
    returns (emitted: Option<seq<Id>>)
    requires source < |todos|
    requires destination.Some? ==> destination.value < |todos|
    ensures destination.None? <==> emitted.None?
    ensures destination.Some? ==> emitted == Some(Ids(Move(todos, source, destination.value)))
  {
    if destination.None? {
      return None;
    }
    var items := todos;
    var reorderedItem := items[source];
    items := RemoveAt(items, source);
    items := InsertAt(items, destination.value, reorderedItem);
    SplicesAreMove(todos, source, destination.value);
    emitted := Some(Ids(items));
  }

  /** The emitted ids are the shown ids permuted, with the dragged id at the
      drop position; a drop where the drag started sends the ids unchanged. */
  lemma DragEmitsPermutation(todos: seq<Todo>, source: nat, destination: nat)
    requires source < |todos| && destination < |todos|
    ensures var ids := Ids(Move(todos, source, destination));
      && multiset(ids) == multiset(Ids(todos))
      && ids[destination] == todos[source].id
      && (source == destination ==> ids == Ids(todos))
  {
    MovePermutes(todos, source, destination);
    MapPermutation(Move(todos, source, destination), todos, IdOf);
    if source == destination {
      MoveInPlace(todos, source);
    }
  }

  /** In the "all" view of a list with distinct ids, the ids a drop sends
      make the client's optimistic list equal to the list the server's
      reorder returns, and both show the items in the dropped sequence. */
  lemma DragReorderMatchesServer(todos: seq<Todo>, source: nat, destination: nat)
    requires Distinct(Ids(todos)) && source < |todos| && destination < |todos|
    ensures var ids := Ids(Move(todos, source, destination));
      && (forall k :: 0 <= k < |ids| ==> ids[k] in Ids(todos))
      && App.OptimisticReorder(todos, ids) == SortByOrder(Server.Reassigned(todos, ids))
      && Ids(App.OptimisticReorder(todos, ids)) == ids
  {
    var ids := Ids(Move(todos, source, destination));
    DragEmitsPermutation(todos, source, destination);
    DistinctSubMultiset(ids, Ids(todos));
    App.OptimisticReorderMatchesServer(todos, ids);
  }

  // ----- the empty state -----

  datatype EmptyState = EmptyState(icon: string, text: string, subtext: string)

  /** `getEmptyStateMessage`: one message per view. */
  function EmptyStateMessage(filter: string): (m: EmptyState)
    ensures ViewOf(filter) == ActiveView ==> m.text == "No active todos!"
    ensures ViewOf(filter) == CompletedView ==> m.text == "No completed todos"
    ensures ViewOf(filter) == All ==> m.text == "No todos yet"
  {
    match filter
    case "active" =>
      EmptyState("\U{1F389}", "No active todos!", "Great job! All your todos are completed.")
    case "completed" =>
      EmptyState("\U{1F4DD}", "No completed todos", "Complete some todos to see them here.")
    case _ =>
      EmptyState("\U{1F4CB}", "No todos yet", "Add your first todo above to get started!")
  }

  /** The empty-state switch distinguishes filters exactly as the view
      filter does: two filters get the same message iff they select the
      same view. */
  lemma EmptyStateFollowsView(f: string, g: string)
    ensures EmptyStateMessage(f) == EmptyStateMessage(g) <==> ViewOf(f) == ViewOf(g)
  {
  }

  /** What the component renders: the empty state, or the items in the order
      given. */
  datatype Rendered = Empty(message: EmptyState) | Rows(items: seq<Todo>)

  function Render(todos: seq<Todo>, filter: string): (v: Rendered)
    ensures v.Empty? <==> todos == []
    ensures v.Empty? ==> v.message == EmptyStateMessage(filter)
    ensures v.Rows? ==> v.items == todos
  {
    if |todos| == 0 then Empty(EmptyStateMessage(filter)) else Rows(todos)
  }
}
