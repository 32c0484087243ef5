/** `list.sort((a, b) => a.order - b.order)`. ECMAScript requires
    `Array.prototype.sort` to be stable, so the sort is modelled as a stable
    insertion sort on the `order` field; the lemmas below state what any
    stable sort by `order` gives: an ascending, permuted, stable result. */
module Ordering {
  import opened Todos

  predicate SortedByOrder(s: seq<Todo>) {
    forall i, j :: 0 <= i < j < |s| ==> s[i].order <= s[j].order
  }

  /** Strictly ascending `order` values. */
  predicate StrictlyOrdered(s: seq<Todo>) {
    forall i, j :: 0 <= i < j < |s| ==> s[i].order < s[j].order
  }

  /** Puts `x` before the first element of `t` whose order is not smaller,
      so that `x` precedes the elements it ties with. */
  function Insert(x: Todo, t: seq<Todo>): (r: seq<Todo>)
    ensures multiset(r) == multiset{x} + multiset(t)
  {
    if t == [] || x.order <= t[0].order then [x] + t
    else
      assert t == [t[0]] + t[1..];
      [t[0]] + Insert(x, t[1..])
  }

  lemma {:induction false} InsertSorted(x: Todo, t: seq<Todo>)
    requires SortedByOrder(t)
    ensures SortedByOrder(Insert(x, t))
  {
    if t != [] && x.order > t[0].order {
      var rest := Insert(x, t[1..]);
      InsertSorted(x, t[1..]);
      forall y | y in rest ensures t[0].order <= y.order {
        assert y in multiset(rest);
        if y != x {
          assert y in multiset(t[1..]);
        }
      }
    }
  }

  /** The stable sort ascending by `order`. */
  function SortByOrder(s: seq<Todo>): (r: seq<Todo>)
    ensures SortedByOrder(r)
    ensures multiset(r) == multiset(s)
  {
    if s == [] then []
    else
      assert s == [s[0]] + s[1..];
      InsertSorted(s[0], SortByOrder(s[1..]));
      Insert(s[0], SortByOrder(s[1..]))
  }

  lemma KeepSingleton(x: Todo, k: int)
    ensures Keep([x], HasOrder(k)) == if x.order == k then [x] else []
  {
    assert [x][1..] == [];
  }

  lemma {:induction false} InsertStable(x: Todo, t: seq<Todo>, k: int)
    ensures Keep(Insert(x, t), HasOrder(k)) == Keep([x], HasOrder(k)) + Keep(t, HasOrder(k))
  {
    if t == [] || x.order <= t[0].order {
      KeepAppend([x], t, HasOrder(k));
    } else {
      assert t == [t[0]] + t[1..];
      assert Insert(x, t) == [t[0]] + Insert(x, t[1..]);
      InsertStable(x, t[1..], k);
      PassOver(x, t[0], t[1..], Insert(x, t[1..]), k);
    }
  }

  /** When `x` is inserted past `y`, whose order differs, `y` in front on
      both sides leaves `x` ahead of the other items of order `k`. */
  lemma PassOver(x: Todo, y: Todo, rest: seq<Todo>, m: seq<Todo>, k: int)
    requires x.order != y.order
    requires Keep(m, HasOrder(k)) == Keep([x], HasOrder(k)) + Keep(rest, HasOrder(k))
    ensures Keep([y] + m, HasOrder(k)) == Keep([x], HasOrder(k)) + Keep([y] + rest, HasOrder(k))
  {
    var p := HasOrder(k);
    KeepAppend([y], m, p);
    KeepAppend([y], rest, p);
    KeepSingleton(x, k);
    KeepSingleton(y, k);
    var kx, ky, kr := Keep([x], p), Keep([y], p), Keep(rest, p);
    if x.order == k {
      assert ky == [];
      assert Keep([y] + m, p) == kx + kr;
      assert Keep([y] + rest, p) == kr;
    } else {
      assert kx == [];
      assert Keep([y] + m, p) == ky + kr;
    }
  }

  /** Stability: the items that share any one `order` value come out in the
      relative order they went in. */
  lemma {:induction false} SortStable(s: seq<Todo>, k: int)
    ensures Keep(SortByOrder(s), HasOrder(k)) == Keep(s, HasOrder(k))
  {
    if s != [] {
      SortStable(s[1..], k);
      InsertStable(s[0], SortByOrder(s[1..]), k);
      assert s == [s[0]] + s[1..];
      KeepAppend([s[0]], s[1..], HasOrder(k));
    }
  }

  /** Sorting a list with distinct ids keeps its ids distinct. */
  lemma SortDistinctIds(s: seq<Todo>)
    requires Distinct(Ids(s))
    ensures Distinct(Ids(SortByOrder(s)))
    ensures multiset(Ids(SortByOrder(s))) == multiset(Ids(s))
  {
    MapPermutation(SortByOrder(s), s, IdOf);
    DistinctSubMultiset(Ids(SortByOrder(s)), Ids(s));
  }

  /** A sorted list is determined by its elements when the reference list has
      no two equal orders: it is the only arrangement in ascending order. */
  lemma {:induction false} SortedUnique(x: seq<Todo>, y: seq<Todo>)
    requires SortedByOrder(x) && StrictlyOrdered(y)
    requires multiset(x) == multiset(y)
    ensures x == y
    decreases |x|
  {
    if x != [] {
      assert |x| == |multiset(x)| == |y|;
      SameHead(x, y);
      assert x == [x[0]] + x[1..];
      assert y == [y[0]] + y[1..];
      assert multiset(x) == multiset{x[0]} + multiset(x[1..]);
      assert multiset(y) == multiset{y[0]} + multiset(y[1..]);
      assert multiset(x[1..]) == multiset(x) - multiset{x[0]};
      assert multiset(y[1..]) == multiset(y) - multiset{y[0]};
      SortedUnique(x[1..], y[1..]);
    }
  }

  lemma SameHead(x: seq<Todo>, y: seq<Todo>)
    requires SortedByOrder(x) && StrictlyOrdered(y)
    requires multiset(x) == multiset(y) && x != [] && y != []
    ensures x[0] == y[0]
  {
    assert y[0] in multiset(x);
    assert x[0] in multiset(y);
    var m :| 0 <= m < |x| && x[m] == y[0];
    var n :| 0 <= n < |y| && y[n] == x[0];
    assert x[0].order <= x[m].order;
  }

  /** Sorting leaves a strictly ordered list unchanged. */
  lemma SortStrictlyOrdered(s: seq<Todo>)
    requires StrictlyOrdered(s)
    ensures SortByOrder(s) == s
  {
    SortedUnique(SortByOrder(s), s);
  }

  /** An ascending list of distinct integers drawn from `0 .. |o| - 1` is
      exactly `0, 1, …, |o| - 1`. */
  lemma OrdersAreRange(o: seq<int>)
    requires forall i, j :: 0 <= i < j < |o| ==> o[i] < o[j]
    requires forall i :: 0 <= i < |o| ==> 0 <= o[i] < |o|
    ensures forall k :: 0 <= k < |o| ==> o[k] == k
  {
    forall k | 0 <= k < |o| ensures o[k] == k {
      AtLeastIndex(o, k);
      AtMostIndex(o, k);
    }
  }

  lemma {:induction false} AtLeastIndex(o: seq<int>, k: nat)
    requires k < |o|
    requires forall i, j :: 0 <= i < j < |o| ==> o[i] < o[j]
    requires forall i :: 0 <= i < |o| ==> 0 <= o[i]
    ensures o[k] >= k
  {
    if k > 0 {
      AtLeastIndex(o, k - 1);
    }
  }

  lemma {:induction false} AtMostIndex(o: seq<int>, k: nat)
    requires k < |o|
    requires forall i, j :: 0 <= i < j < |o| ==> o[i] < o[j]
    requires forall i :: 0 <= i < |o| ==> o[i] < |o|
    ensures o[k] <= k
    decreases |o| - k
  {
    if k < |o| - 1 {
      AtMostIndex(o, k + 1);
    }
  }
}
