/** The API server's item store: the module-level `todos` array and the
    bodies of the route handlers that read and change it. Each handler
    becomes a method of `TodoStore`; the HTTP routing, body parsing and JSON
    framing around the bodies are not modelled. Generated ids and
    timestamps are passed in as parameters. */
module Server {
  import opened Text
  import opened Todos
  import opened Ordering
  import opened TodoStats

  /** The response envelope: `{success: true, data}`, or an error status with
      `{success: false, message}`. */
  datatype Response<T> = Success(data: T) | Failure(status: nat, message: string)

  function TextRequired<T>(): (r: Response<T>)
    ensures r.Failure? && r.status == 400 && r.message == "Todo text is required"
  {
    Failure(400, "Todo text is required")
  }

  function NotFound<T>(): (r: Response<T>)
    ensures r.Failure? && r.status == 404 && r.message == "Todo not found"
  {
    Failure(404, "Todo not found")
  }

  function NotAnArray<T>(): (r: Response<T>)
    ensures r.Failure? && r.status == 400 && r.message == "todoIds must be an array"
  {
    Failure(400, "todoIds must be an array")
  }

  /** `data` of GET /api/stats. */
  datatype ServerStats = ServerStats(total: nat, completed: nat, active: nat, completionRate: nat)

  // ----- getNextOrder -----

  /** `Math.max(...todos.map(todo => todo.order))`: an order that occurs in
      the list and that no item exceeds. */
  function MaxOrder(s: seq<Todo>): (m: int)
    requires s != []
    ensures exists i :: 0 <= i < |s| && s[i].order == m
    ensures forall i :: 0 <= i < |s| ==> s[i].order <= m
  {
    if |s| == 1 then s[0].order
    else
      var rest := MaxOrder(s[1..]);
      if s[0].order > rest then s[0].order else rest
  }

  /** `getNextOrder()`: 0 for an empty store, otherwise one more than the
      largest order, so it exceeds every order in the store. */
  function NextOrder(s: seq<Todo>): (n: int)
    ensures s == [] ==> n == 0
    ensures s != [] ==> exists i :: 0 <= i < |s| && s[i].order == n - 1
    ensures forall i :: 0 <= i < |s| ==> s[i].order < n
  {
    if |s| > 0 then MaxOrder(s) + 1 else 0
  }

  // ----- PUT /api/todos/:id -----

  /** The item after an update: the text is replaced by its trimmed value if
      one was sent, `completed` is replaced if it was sent, `updatedAt` is
      always stamped; id, order and createdAt are kept. */
  function Patched(t: Todo, text: Option<string>, completed: Option<bool>, now: Timestamp): (r: Todo)
    ensures r.id == t.id && r.order == t.order && r.createdAt == t.createdAt
    ensures r.text == (if text.Some? then Trim(text.value) else t.text)
    ensures r.completed == (if completed.Some? then completed.value else t.completed)
    ensures r.updatedAt == Some(now)
  {
    var withText := if text.Some? then t.(text := Trim(text.value)) else t;
    var withFlag := if completed.Some? then withText.(completed := completed.value) else withText;
    withFlag.(updatedAt := Some(now))
  }

  // ----- PUT /api/todos/reorder -----

  /** The index of the last occurrence of `x` in `ids`: when an id is listed
      twice, the later `forEach` iteration overwrites the earlier one. */
  function LastIndexOf(ids: seq<Id>, x: Id): (k: nat)
    requires x in ids
    ensures k < |ids| && ids[k] == x
    ensures forall j :: k < j < |ids| ==> ids[j] != x
  {
    if ids[|ids| - 1] == x then |ids| - 1 else LastIndexOf(ids[..|ids| - 1], x)
  }

  /** What the `forEach` loop leaves at position `j`: `find` only ever
      reaches the first item carrying an id, and that item gets the index
      of the id's last occurrence in `ids`; every other item is untouched. */
  function Renumbered(s: seq<Todo>, ids: seq<Id>, j: nat): (r: Todo)
    requires j < |s|
    ensures r == s[j].(order := r.order)
    ensures s[j].id in ids && (forall i :: 0 <= i < j ==> s[i].id != s[j].id) ==>
      r.order == LastIndexOf(ids, s[j].id) && ids[r.order] == s[j].id
    ensures s[j].id !in ids || (exists i :: 0 <= i < j && s[i].id == s[j].id) ==> r == s[j]
  {
    if s[j].id in ids && Find(s, s[j].id) == Some(j)
    then s[j].(order := LastIndexOf(ids, s[j].id))
    else s[j]
  }

  /** The store after the `forEach` loop and before the sort. Only `order`
      changes, so the ids stay in place. */
  function Reassigned(s: seq<Todo>, ids: seq<Id>): (r: seq<Todo>)
    ensures |r| == |s| && Ids(r) == Ids(s)
  {
    var r := seq(|s|, j requires 0 <= j < |s| => Renumbered(s, ids, j));
    assert forall j :: 0 <= j < |s| ==> Ids(r)[j] == Ids(s)[j];
    r
  }

  /** One iteration of the loop: the item found for `ids[i]`, if any, gets
      order `i`. */
  lemma ReassignedStep(s: seq<Todo>, ids: seq<Id>, i: nat)
    requires i < |ids|
    ensures var t := Reassigned(s, ids[..i]);
      Reassigned(s, ids[..i + 1]) ==
        match Find(s, ids[i])
        case None => t
        case Some(k) => t[k := t[k].(order := i)]
  {
    var a, b := ids[..i], ids[..i + 1];
    assert b == a + [ids[i]];
    assert b[..|b| - 1] == a;
    var t, u := Reassigned(s, a), Reassigned(s, b);
    forall j | 0 <= j < |s|
      ensures u[j] == match Find(s, ids[i]) case None => t[j] case Some(k) => if j == k then t[k].(order := i) else t[j]
    {
      var x := s[j].id;
      if x != ids[i] {
        assert x in b <==> x in a;
        if x in a {
          assert LastIndexOf(b, x) == LastIndexOf(a, x);
        }
      }
    }
  }

  /** Orders after the loop, for a store whose ids are distinct: a listed
      id's item takes the index of its last occurrence; an unlisted item
      keeps its order; ids that match no item change nothing. */
  lemma ReassignedOrders(s: seq<Todo>, ids: seq<Id>, j: nat)
    requires Distinct(Ids(s)) && j < |s|
    ensures Reassigned(s, ids)[j] ==
      s[j].(order := if s[j].id in ids then LastIndexOf(ids, s[j].id) else s[j].order)
  {
    FindDistinct(s, j);
  }

  /** With ids a permutation of the store's distinct ids, every item is
      listed, so every item takes the index of its id in `ids`. */
  lemma ReassignedByPermutation(s: seq<Todo>, ids: seq<Id>)
    requires Distinct(Ids(s)) && multiset(ids) == multiset(Ids(s))
    ensures |ids| == |s|
    ensures forall j :: 0 <= j < |s| ==>
      s[j].id in ids && Reassigned(s, ids)[j] == s[j].(order := LastIndexOf(ids, s[j].id))
  {
    assert |ids| == |multiset(ids)| == |multiset(Ids(s))| == |s|;
    forall j | 0 <= j < |s|
      ensures s[j].id in ids && Reassigned(s, ids)[j] == s[j].(order := LastIndexOf(ids, s[j].id))
    {
      assert Ids(s)[j] in multiset(Ids(s));
      ReassignedOrders(s, ids, j);
    }
  }

  /** Different items get different positions of `ids`. */
  lemma PermutationOrdersDistinct(s: seq<Todo>, ids: seq<Id>)
    requires Distinct(Ids(s)) && multiset(ids) == multiset(Ids(s))
    ensures Distinct(Orders(Reassigned(s, ids)))
    ensures forall j :: 0 <= j < |s| ==> 0 <= Reassigned(s, ids)[j].order < |s|
  {
    var a := Reassigned(s, ids);
    ReassignedByPermutation(s, ids);
    forall i, j | 0 <= i < j < |s| ensures Orders(a)[i] != Orders(a)[j] {
      assert Ids(s)[i] != Ids(s)[j];
    }
  }

  /** Sorting items whose orders are distinct and drawn from `0 .. n - 1`
      puts the item with order `k` at position `k`. */
  lemma SortedOrdersAreRange(r: seq<Todo>, a: seq<Todo>)
    requires SortedByOrder(r) && multiset(r) == multiset(a)
    requires Distinct(Orders(a))
    requires forall j :: 0 <= j < |a| ==> 0 <= a[j].order < |a|
    ensures |r| == |a|
    ensures forall k :: 0 <= k < |r| ==> r[k].order == k
  {
    assert |r| == |multiset(r)| == |a|;
    MapPermutation(r, a, OrderOf);
    DistinctSubMultiset(Orders(r), Orders(a));
    forall k | 0 <= k < |r| ensures 0 <= Orders(r)[k] < |r| {
      assert r[k] in multiset(a);
    }
    OrdersAreRange(Orders(r));
  }

  /** Reordering by a permutation of the store's ids (the full id list a
      drag produces) leaves the store listing exactly those ids, in that
      sequence, with orders 0, 1, …, n - 1. */
  lemma ReorderByPermutation(s: seq<Todo>, ids: seq<Id>)
    requires Distinct(Ids(s)) && Distinct(ids)
    requires multiset(ids) == multiset(Ids(s))
    ensures Ids(SortByOrder(Reassigned(s, ids))) == ids
    ensures forall k :: 0 <= k < |ids| ==> SortByOrder(Reassigned(s, ids))[k].order == k
  {
    var a := Reassigned(s, ids);
    var r := SortByOrder(a);
    ReassignedByPermutation(s, ids);
    PermutationOrdersDistinct(s, ids);
    SortedOrdersAreRange(r, a);
    forall k | 0 <= k < |r| ensures r[k].id == ids[k] {
      assert r[k] in multiset(a);
      var j :| 0 <= j < |a| && r[k] == a[j];
      assert LastIndexOf(ids, s[j].id) == k;
    }
  }

  function Reverse<T>(xs: seq<T>): (r: seq<T>)
    ensures |r| == |xs| && forall i :: 0 <= i < |xs| ==> r[i] == xs[|xs| - 1 - i]
  {
    if xs == [] then [] else Reverse(xs[1..]) + [xs[0]]
  }

  lemma {:induction false} ReverseMultiset<T>(xs: seq<T>)
    ensures multiset(Reverse(xs)) == multiset(xs)
  {
    if xs != [] {
      ReverseMultiset(xs[1..]);
      assert xs == [xs[0]] + xs[1..];
    }
  }

  /** Reordering with the store's ids in reverse makes the store, and the
      full listing that sorts it again, come out reversed. */
  lemma ReorderReversed(s: seq<Todo>)
    requires Distinct(Ids(s))
    ensures Ids(SortByOrder(Reassigned(s, Reverse(Ids(s))))) == Reverse(Ids(s))
    ensures SortByOrder(SortByOrder(Reassigned(s, Reverse(Ids(s))))) == SortByOrder(Reassigned(s, Reverse(Ids(s))))
  {
    var ids := Reverse(Ids(s));
    ReverseMultiset(Ids(s));
    DistinctSubMultiset(ids, Ids(s));
    ReorderByPermutation(s, ids);
    SortStrictlyOrdered(SortByOrder(Reassigned(s, ids)));
  }

  // ----- facts used by the store's contracts -----

  /** Appending an item with a fresh id keeps ids distinct, and a lookup of
      that id finds the appended item. */
  lemma AppendFresh(s: seq<Todo>, t: Todo)
    requires Distinct(Ids(s)) && t.id !in Ids(s)
    ensures Distinct(Ids(s + [t]))
    ensures Find(s + [t], t.id) == Some(|s|)
  {
    assert Ids(s + [t]) == Ids(s) + [t.id];
  }

  /** After a splice at the found position the id is gone, so deleting the
      same id again is a 404, and the remaining ids stay distinct. */
  lemma SpliceRemovesId(s: seq<Todo>, j: nat)
    requires Distinct(Ids(s)) && j < |s|
    ensures s[j].id !in Ids(s[..j] + s[j + 1..])
    ensures Distinct(Ids(s[..j] + s[j + 1..]))
  {
    var rest := s[..j] + s[j + 1..];
    forall i | 0 <= i < |rest| ensures rest[i].id != s[j].id {
      if i < j { assert rest[i] == s[i]; } else { assert rest[i] == s[i + 1]; }
    }
    assert multiset(rest) <= multiset(s) by {
      assert s == s[..j] + [s[j]] + s[j + 1..];
    }
    MapSubMultiset(rest, s, IdOf);
    DistinctSubMultiset(Ids(rest), Ids(s));
  }

  /** Clearing completed items twice is clearing them once: the second call
      finds nothing completed and keeps the store as it is. */
  lemma ClearIdempotent(s: seq<Todo>)
    ensures Keep(Keep(s, IsActive), IsDone) == []
    ensures Keep(Keep(s, IsActive), IsActive) == Keep(s, IsActive)
  {
    KeepMembers(s, IsActive);
    KeepNone(Keep(s, IsActive), IsDone);
    KeepAll(Keep(s, IsActive), IsActive);
  }

  /** The in-memory store. `Valid` is the invariant the server keeps by
      giving every new item a fresh UUID: no two items share an id. */
  class TodoStore {
    var todos: seq<Todo>

    ghost predicate Valid()
      reads this
    {
      Distinct(Ids(todos))
    }

    /** The two items the server starts with, at orders 0 and 1. */
    constructor Seeded(id0: Id, id1: Id, created0: Timestamp, created1: Timestamp)
      requires id0 != id1
      ensures Valid()
      ensures todos == [
        Todo(id0, "Complete the Cornfield Group Assessment", false, 0, created0, None),
        Todo(id1, "Build an awesome todo app", false, 1, created1, None)]
    {
      todos := [
        Todo(id0, "Complete the Cornfield Group Assessment", false, 0, created0, None),
        Todo(id1, "Build an awesome todo app", false, 1, created1, None)];
    }

    /** GET /api/todos?filter=…: the items of the selected view, ascending by
        order, with `total` their number. An absent filter or any value other
        than `active` or `completed` selects all items; then the shared array
        itself is what gets sorted, so the store ends up sorted too. */
    method List(filter: Option<string>) returns (data: seq<Todo>, total: nat)
      requires Valid()
      modifies this
      ensures Valid()
      ensures var v := if filter.Some? then ViewOf(filter.value) else All;
        && data == SortByOrder(Select(old(todos), v))
        && todos == (if v == All then data else old(todos))
      ensures SortedByOrder(data) && total == |data|
    {
      var filtered := todos;
      var shared := true;  // `filtered` still refers to the store's own array
      if filter == Some("active") {
        filtered := Keep(todos, IsActive);
        shared := false;
      } else if filter == Some("completed") {
        filtered := Keep(todos, IsDone);
        shared := false;
      }
      data := SortByOrder(filtered);
      if shared {
        SortDistinctIds(todos);
        todos := data;
      }
      total := |data|;
    }

    /** GET /api/todos/:id: the item with that id, or 404. */
    method Get(id: Id) returns (r: Response<Todo>)
      requires Valid()
      ensures r.Failure? <==> id !in Ids(todos)
      ensures r.Failure? ==> r == NotFound()
      ensures r.Success? ==> r.data in todos && r.data.id == id
    {
      var k := Find(todos, id);
      if k.None? {
        return NotFound();
      }
      r := Success(todos[k.value]);
    }

    /** POST /api/todos: a missing or blank text is a 400 that adds nothing;
        otherwise one new item, with the trimmed text, not completed, and an
        order above every existing one, is appended at the end. */
    method Create(text: Option<string>, id: Id, now: Timestamp) returns (r: Response<Todo>)
      requires Valid()
      requires id !in Ids(todos)
      modifies this
      ensures Valid()
      ensures r.Failure? <==> text.None? || IsBlank(text.value)
      ensures r.Failure? ==> r == TextRequired() && todos == old(todos)
      ensures r.Success? ==>
        && r.data == Todo(id, Trim(text.value), false, NextOrder(old(todos)), now, None)
        && todos == old(todos) + [r.data]
        && (forall t :: t in old(todos) ==> t.order < r.data.order)
    {
      if text.None? || text.value == "" || Trim(text.value) == "" {
        return TextRequired();
      }
      var newTodo := Todo(id, Trim(text.value), false, NextOrder(todos), now, None);
      AppendFresh(todos, newTodo);
      todos := todos + [newTodo];
      r := Success(newTodo);
    }

    /** PUT /api/todos/:id: 404 and no change for an unknown id; otherwise
        the found item is patched and no other item changes. */
    method Update(id: Id, text: Option<string>, completed: Option<bool>, now: Timestamp)
      returns (r: Response<Todo>)
      requires Valid()
      modifies this
      ensures Valid()
      ensures id !in Ids(old(todos)) ==> r == NotFound() && todos == old(todos)
      ensures id in Ids(old(todos)) ==>
        var j := Find(old(todos), id).value;
        && todos == old(todos)[j := Patched(old(todos)[j], text, completed, now)]
        && r == Success(todos[j])
    {
      var k := Find(todos, id);
      if k.None? {
        return NotFound();
      }
      var j := k.value;
      todos := todos[j := Patched(todos[j], text, completed, now)];
      assert Ids(todos) == Ids(old(todos));
      r := Success(todos[j]);
    }

    /** DELETE /api/todos/:id: 404 and no change for an unknown id; otherwise
        the found item is spliced out and returned. */
    method Delete(id: Id) returns (r: Response<Todo>)
      requires Valid()
      modifies this
      ensures Valid()
      ensures id !in Ids(old(todos)) ==> r == NotFound() && todos == old(todos)
      ensures id in Ids(old(todos)) ==>
        var j := Find(old(todos), id).value;
        && r == Success(old(todos)[j])
        && todos == old(todos)[..j] + old(todos)[j + 1..]
        && id !in Ids(todos)
    {
      var k := Find(todos, id);
      if k.None? {
        return NotFound();
      }
      var j := k.value;
      var deleted := todos[j];
      SpliceRemovesId(todos, j);
      todos := todos[..j] + todos[j + 1..];
      r := Success(deleted);
    }

    /** DELETE /api/todos/completed/clear: returns the completed items in
        store order and keeps only the others, in their order. */
    method ClearCompleted() returns (cleared: seq<Todo>)
      requires Valid()
      modifies this
      ensures Valid()
      ensures cleared == Keep(old(todos), IsDone)
      ensures todos == Keep(old(todos), IsActive)
    {
      cleared := Keep(todos, IsDone);
      KeepDistinctIds(todos, IsActive);
      todos := Keep(todos, IsActive);
    }

    /** PUT /api/todos/reorder: a body without a `todoIds` array is a 400 and
        changes nothing; otherwise each listed id's item takes its index as
        order and the store is sorted by order and returned. */
    method Reorder(todoIds: Option<seq<Id>>) returns (r: Response<seq<Todo>>)
      requires Valid()
      modifies this
      ensures Valid()
      ensures todoIds.None? ==> r == NotAnArray() && todos == old(todos)
      ensures todoIds.Some? ==>
        && todos == SortByOrder(Reassigned(old(todos), todoIds.value))
        && r == Success(todos)
    {
      if todoIds.None? {
        return NotAnArray();
      }
      var ids := todoIds.value;
      var i := 0;
      while i < |ids|
        invariant 0 <= i <= |ids|
        invariant todos == Reassigned(old(todos), ids[..i])
      {
        ReassignedStep(old(todos), ids, i);
        var k := Find(todos, ids[i]);
        if k.Some? {
          todos := todos[k.value := todos[k.value].(order := i)];
        }
        i := i + 1;
      }
      assert ids[..i] == ids;
      SortDistinctIds(todos);
      todos := SortByOrder(todos);
      r := Success(todos);
    }

    /** GET /api/stats: the counts, which add up, and the completion rate. */
    method Stats() returns (st: ServerStats)
      ensures st.total == |todos|
      ensures st.completed == |Keep(todos, IsDone)|
      ensures st.active == |Keep(todos, IsActive)|
      ensures st.active + st.completed == st.total
      ensures st.completionRate == CompletionRate(st.completed, st.total) <= 100
    {
      var counts := CountStats(todos);
      RateAtMostHundred(counts.completed, counts.total);
      st := ServerStats(counts.total, counts.completed, counts.active,
                        CompletionRate(counts.completed, counts.total));
    }
  }

  lemma SeedNextOrder(a: Todo, b: Todo)
    requires a.order == 0 && b.order == 1
    ensures NextOrder([a, b]) == 2
  {
    assert [a, b][1..] == [b];
  }

  lemma ThreeWithOneDone(a: Todo, b: Todo, c: Todo)
    requires !a.completed && !b.completed && c.completed
    ensures Keep([a, b, c], IsDone) == [c] && Keep([a, b, c], IsActive) == [a, b]
    ensures Keep([a, b], IsDone) == []
  {
    assert [a, b, c][1..] == [b, c] && [b, c][1..] == [c] && [c][1..] == [];
    assert [a, b][1..] == [b] && [b][1..] == [];
    assert Keep([c], IsActive) == [] && Keep([c], IsDone) == [c];
    assert Keep([b, c], IsActive) == [b] && Keep([b, c], IsDone) == [c];
    assert Keep([b], IsDone) == [];
  }

  /** The stats of the seeded store after one item is added and completed
      (3 items, 1 completed, 2 active, 33 percent), and after the completed
      items are cleared again (2, 0, 2, 0 percent). */
  lemma SeedStats(a: Todo, b: Todo, c: Todo)
    requires !a.completed && !b.completed && c.completed
    ensures var n := CountStats([a, b, c]);
      ServerStats(n.total, n.completed, n.active, CompletionRate(n.completed, n.total)) == ServerStats(3, 1, 2, 33)
    ensures Keep([a, b, c], IsActive) == [a, b]
    ensures var n := CountStats([a, b]);
      ServerStats(n.total, n.completed, n.active, CompletionRate(n.completed, n.total)) == ServerStats(2, 0, 2, 0)
  {
    ThreeWithOneDone(a, b, c);
    assert CompletionRate(1, 3) == 33;
  }
}
