/** The todo record shared by the server and the client, and the list
    operations both sides build on: `Array.prototype.filter`, `map` to ids,
    `find`/`findIndex` by id, and the counting behind the stats. */
module Todos {
  import opened Text

  datatype Option<T> = None | Some(value: T)

  /** Ids are opaque strings (UUIDs made by the server); timestamps are ISO
      strings. Neither is ever inspected, only compared or copied. */
  type Id = string
  type Timestamp = string

  /** A todo item `{id, text, completed, order, createdAt, updatedAt?}`. */
  datatype Todo = Todo(
    id: Id,
    text: string,
    completed: bool,
    order: int,
    createdAt: Timestamp,
    updatedAt: Option<Timestamp>)

  predicate IsDone(t: Todo) { t.completed }
  predicate IsActive(t: Todo) { !t.completed }

  /** `todo => todo.id !== id` */
  function NotId(id: Id): Todo -> bool { (t: Todo) => t.id != id }

  /** `todo => todo.order === k`, used to state that sorting is stable. */
  function HasOrder(k: int): Todo -> bool { (t: Todo) => t.order == k }

  function IdOf(t: Todo): Id { t.id }
  function OrderOf(t: Todo): int { t.order }

  // ----- filter -----

  /** `s.filter(p)`: the elements of `s` that satisfy `p`, in their order. */
  function Keep<T>(s: seq<T>, p: T -> bool): (r: seq<T>)
    ensures |r| <= |s|
  {
    if s == [] then []
    else (if p(s[0]) then [s[0]] else []) + Keep(s[1..], p)
  }

  /** The filter keeps exactly the elements that pass, each as often as it
      occurs in the input, and drops every occurrence of the others. */
  lemma {:induction false} KeepMembers<T(!new)>(s: seq<T>, p: T -> bool)
    ensures forall x :: x in Keep(s, p) <==> x in s && p(x)
    ensures forall x :: multiset(Keep(s, p))[x] == if p(x) then multiset(s)[x] else 0
    ensures multiset(Keep(s, p)) <= multiset(s)
  {
    if s != [] {
      KeepMembers(s[1..], p);
      assert s == [s[0]] + s[1..];
    }
  }

  /** Filtering distributes over concatenation, so it keeps relative order. */
  lemma {:induction false} KeepAppend<T(!new)>(a: seq<T>, b: seq<T>, p: T -> bool)
    ensures Keep(a + b, p) == Keep(a, p) + Keep(b, p)
  {
    if a == [] {
      assert a + b == b;
    } else {
      var h := if p(a[0]) then [a[0]] else [];
      assert (a + b)[0] == a[0];
      assert (a + b)[1..] == a[1..] + b;
      calc {
        Keep(a + b, p);
        h + Keep(a[1..] + b, p);
        { KeepAppend(a[1..], b, p); }
        h + (Keep(a[1..], p) + Keep(b, p));
        (h + Keep(a[1..], p)) + Keep(b, p);
        Keep(a, p) + Keep(b, p);
      }
    }
  }

  /** Filtering a list whose elements all pass returns it unchanged. */
  lemma {:induction false} KeepAll<T(!new)>(s: seq<T>, p: T -> bool)
    requires forall x :: x in s ==> p(x)
    ensures Keep(s, p) == s
  {
    if s != [] {
      KeepAll(s[1..], p);
    }
  }

  /** Filtering a list none of whose elements pass returns nothing. */
  lemma KeepNone<T(!new)>(s: seq<T>, p: T -> bool)
    requires forall x :: x in s ==> !p(x)
    ensures Keep(s, p) == []
  {
  }

  /** The completed and the active items split the list: every item is in
      exactly one of the two filters. */
  lemma {:induction false} DoneActivePartition(s: seq<Todo>)
    ensures multiset(Keep(s, IsDone)) + multiset(Keep(s, IsActive)) == multiset(s)
    ensures |Keep(s, IsDone)| + |Keep(s, IsActive)| == |s|
  {
    if s != [] {
      DoneActivePartition(s[1..]);
      assert s == [s[0]] + s[1..];
    }
  }

  /** Permuting a list does not change how many of its elements pass a
      filter. */
  lemma {:induction false} KeepLengthPermutation<T(!new)>(a: seq<T>, b: seq<T>, p: T -> bool)
    requires multiset(a) == multiset(b)
    ensures |Keep(a, p)| == |Keep(b, p)|
    decreases |a|
  {
    if a != [] {
      var x := a[0];
      assert x in multiset(b);
      var m :| 0 <= m < |b| && b[m] == x;
      var b' := b[..m] + b[m + 1..];
      assert b == b[..m] + [x] + b[m + 1..];
      assert multiset(b') == multiset(b) - multiset{x};
      assert a == [x] + a[1..];
      assert multiset(a[1..]) == multiset(a) - multiset{x};
      KeepLengthPermutation(a[1..], b', p);
      KeepAppend(b[..m] + [x], b[m + 1..], p);
      KeepAppend(b[..m], [x], p);
      KeepAppend(b[..m], b[m + 1..], p);
      KeepAppend([x], a[1..], p);
    }
  }

  // ----- map -----

  /** `s.map(f)` */
  function Map<T, U>(s: seq<T>, f: T -> U): (r: seq<U>)
    ensures |r| == |s| && forall i :: 0 <= i < |s| ==> r[i] == f(s[i])
  {
    seq(|s|, i requires 0 <= i < |s| => f(s[i]))
  }

  /** `todos.map(todo => todo.id)` */
  function Ids(s: seq<Todo>): (r: seq<Id>)
    ensures |r| == |s| && forall i :: 0 <= i < |s| ==> r[i] == s[i].id
  {
    Map(s, IdOf)
  }

  /** The `order` fields, in list order. */
  function Orders(s: seq<Todo>): (r: seq<int>)
    ensures |r| == |s| && forall i :: 0 <= i < |s| ==> r[i] == s[i].order
  {
    Map(s, OrderOf)
  }

  lemma MapAppend<T, U>(a: seq<T>, b: seq<T>, f: T -> U)
    ensures Map(a + b, f) == Map(a, f) + Map(b, f)
  {
  }

  /** Mapping preserves the sub-multiset relation: a permutation of a list
      maps to a permutation of its image. */
  lemma {:induction false} MapSubMultiset<T, U>(a: seq<T>, b: seq<T>, f: T -> U)
    requires multiset(a) <= multiset(b)
    ensures multiset(Map(a, f)) <= multiset(Map(b, f))
    decreases |a|
  {
    if a != [] {
      var x := a[0];
      assert x in multiset(b);
      var m :| 0 <= m < |b| && b[m] == x;
      var b' := b[..m] + b[m + 1..];
      assert b == b[..m] + [x] + b[m + 1..];
      assert multiset(b') == multiset(b) - multiset{x};
      assert a == [x] + a[1..];
      MapSubMultiset(a[1..], b', f);
      MapAppend(b[..m], b[m + 1..], f);
      MapAppend(b[..m] + [x], b[m + 1..], f);
      MapAppend(b[..m], [x], f);
      MapAppend([x], a[1..], f);
    }
  }

  lemma MapPermutation<T, U>(a: seq<T>, b: seq<T>, f: T -> U)
    requires multiset(a) == multiset(b)
    ensures multiset(Map(a, f)) == multiset(Map(b, f))
  {
    MapSubMultiset(a, b, f);
    MapSubMultiset(b, a, f);
  }

  // ----- find -----

  /** `xs.findIndex(y => y === x)`, with -1 written as None. */
  function FindId(xs: seq<Id>, x: Id): (r: Option<nat>)
    ensures r.None? <==> x !in xs
    ensures r.Some? ==> r.value < |xs| && xs[r.value] == x && x !in xs[..r.value]
  {
    if xs == [] then None
    else if xs[0] == x then Some(0)
    else
      match FindId(xs[1..], x)
      case None => None
      case Some(k) =>
        assert xs[..k + 1] == [xs[0]] + xs[1..][..k];
        Some(k + 1)
  }

  /** `todos.findIndex(t => t.id === id)`: the first position holding `id`. */
  function Find(s: seq<Todo>, id: Id): (r: Option<nat>)
    ensures r.None? <==> id !in Ids(s)
    ensures r.Some? ==> r.value < |s| && s[r.value].id == id
    ensures r.Some? ==> forall j :: 0 <= j < r.value ==> s[j].id != id
  {
    var r := FindId(Ids(s), id);
    if r.Some? then
      assert forall j :: 0 <= j < r.value ==> s[j].id == Ids(s)[..r.value][j];
      r
    else r
  }

  /** `todos.find(t => t.id === id)` */
  function FindTodo(s: seq<Todo>, id: Id): (r: Option<Todo>)
    ensures r.None? <==> id !in Ids(s)
    ensures r.Some? ==> r.value in s && r.value.id == id
    ensures r.Some? ==>
      exists j :: 0 <= j < |s| && r.value == s[j] && forall i :: 0 <= i < j ==> s[i].id != id
  {
    match Find(s, id)
    case None => None
    case Some(j) => Some(s[j])
  }

  // ----- distinct ids -----

  predicate Distinct<T(==)>(xs: seq<T>) {
    forall i, j :: 0 <= i < j < |xs| ==> xs[i] != xs[j]
  }

  /** With distinct ids, the item holding id `s[j].id` is found at `j`. */
  lemma FindDistinct(s: seq<Todo>, j: nat)
    requires Distinct(Ids(s)) && j < |s|
    ensures Find(s, s[j].id) == Some(j)
  {
    assert Ids(s)[j] == s[j].id;
  }

  lemma {:induction false} DistinctCounts<T>(xs: seq<T>, x: T)
    requires Distinct(xs)
    ensures multiset(xs)[x] <= 1
  {
    if xs != [] {
      assert xs == [xs[0]] + xs[1..];
      DistinctCounts(xs[1..], x);
      if xs[0] == x {
        assert x !in xs[1..];
      }
    }
  }

  lemma RepeatCount<T>(xs: seq<T>, i: nat, j: nat)
    requires i < j < |xs| && xs[i] == xs[j]
    ensures multiset(xs)[xs[i]] >= 2
  {
    assert xs == xs[..i] + [xs[i]] + xs[i + 1..j] + [xs[j]] + xs[j + 1..];
  }

  /** A sub-multiset of a list without repeats has no repeats. */
  lemma DistinctSubMultiset<T>(a: seq<T>, b: seq<T>)
    requires multiset(a) <= multiset(b) && Distinct(b)
    ensures Distinct(a)
  {
    forall i, j | 0 <= i < j < |a| ensures a[i] != a[j] {
      if a[i] == a[j] {
        RepeatCount(a, i, j);
        DistinctCounts(b, a[i]);
        assert false;
      }
    }
  }

  /** Filtering a list with distinct ids keeps the ids distinct. */
  lemma KeepDistinctIds(s: seq<Todo>, p: Todo -> bool)
    requires Distinct(Ids(s))
    ensures Distinct(Ids(Keep(s, p)))
  {
    KeepMembers(s, p);
    MapSubMultiset(Keep(s, p), s, IdOf);
    DistinctSubMultiset(Ids(Keep(s, p)), Ids(s));
  }

  // ----- views and counting -----

  /** The three list views, selected by the filter string. */
  datatype View = All | ActiveView | CompletedView

  /** `switch (filter) { case 'active' … case 'completed' … default … }`:
      any string other than the two names selects every item. */
  function ViewOf(filter: string): (v: View)
    ensures v == ActiveView <==> filter == "active"
    ensures v == CompletedView <==> filter == "completed"
  {
    if filter == "active" then ActiveView
    else if filter == "completed" then CompletedView
    else All
  }

  /** The items a view shows, in list order. */
  function Select(s: seq<Todo>, v: View): (r: seq<Todo>)
    ensures v == All ==> r == s
    ensures v == ActiveView ==> forall x :: x in r <==> x in s && !x.completed
    ensures v == CompletedView ==> forall x :: x in r <==> x in s && x.completed
  {
    match v
    case All => s
    case ActiveView => KeepMembers(s, IsActive); Keep(s, IsActive)
    case CompletedView => KeepMembers(s, IsDone); Keep(s, IsDone)
  }

  datatype Counts = Counts(total: nat, active: nat, completed: nat)

  /** `{ total: todos.length, completed: todos.filter(t => t.completed).length,
      active: total - completed }`: active really is the number of
      non-completed items, and the two counts add up to the total. */
  function CountStats(s: seq<Todo>): (c: Counts)
    ensures c.total == |s|
    ensures c.completed == |Keep(s, IsDone)|
    ensures c.active == |Keep(s, IsActive)|
    ensures c.active + c.completed == c.total
  {
    DoneActivePartition(s);
    var completed := |Keep(s, IsDone)|;
    Counts(|s|, |s| - completed, completed)
  }
}
