/**
 * The reordering step of the drop handler (src/js/tasks-controller.js:749-752):
 * the task list is sorted with `Array.prototype.sort` by each task's position
 * in the container's id list, `updatedOrder.indexOf(task.id)`, so tasks missing
 * from the container share the key -1 and come first.  `Array.prototype.sort`
 * is stable, so the result is the stable sort by that key, written here as an
 * insertion sort.
 */
module DropOrder {
  import opened Tasks

  /** The sort key of a task: its position in `order`, or -1 when absent. */
  function Key(order: seq<Id>, t: Task): (k: int)
    ensures -1 <= k < |order|
    ensures k == -1 <==> t.id !in order
    ensures 0 <= k ==> order[k] == t.id
  {
    IndexOf(order, t.id)
  }

  /** Keys never decrease along the list. */
  ghost predicate SortedByKey(order: seq<Id>, s: seq<Task>) {
    forall i, j :: 0 <= i < j < |s| ==> Key(order, s[i]) <= Key(order, s[j])
  }

  /** The tasks of `s` whose key is `v`, in their order. */
  function WithKey(order: seq<Id>, s: seq<Task>, v: int): seq<Task> {
    Filter(s, (t: Task) => Key(order, t) == v)
  }

  /** Put `x` in front of the first element whose key is not smaller than its own. */
  function Insert(order: seq<Id>, x: Task, s: seq<Task>): (r: seq<Task>)
    ensures |r| == |s| + 1
    ensures multiset(r) == multiset(s) + multiset{x}
    ensures forall y {:trigger y in r} :: y in r <==> y == x || y in s
    decreases |s|
  {
    if s == [] then [x]
    else if Key(order, x) <= Key(order, s[0]) then [x] + s
    else
      assert s == [s[0]] + s[1..];
      [s[0]] + Insert(order, x, s[1..])
  }

  /** The stable sort of `s` by key. */
  function SortByKey(order: seq<Id>, s: seq<Task>): (r: seq<Task>)
    ensures |r| == |s|
    ensures multiset(r) == multiset(s)
    decreases |s|
  {
    if s == [] then []
    else
      assert s == [s[0]] + s[1..];
      Insert(order, s[0], SortByKey(order, s[1..]))
  }

  /* ---------------------------------------------------------------------- */
  /* Sortedness                                                              */
  /* ---------------------------------------------------------------------- */

  lemma SortedCons(order: seq<Id>, h: Task, t: seq<Task>)
    requires SortedByKey(order, t)
    requires forall y :: y in t ==> Key(order, h) <= Key(order, y)
    ensures SortedByKey(order, [h] + t)
  {
    var r := [h] + t;
    forall i, j | 0 <= i < j < |r| ensures Key(order, r[i]) <= Key(order, r[j]) {
      assert r[j] == t[j - 1] && t[j - 1] in t;
      if i > 0 {
        assert r[i] == t[i - 1];
      }
    }
  }

  lemma SortedTail(order: seq<Id>, s: seq<Task>)
    requires SortedByKey(order, s) && s != []
    ensures SortedByKey(order, s[1..])
    ensures forall y :: y in s[1..] ==> Key(order, s[0]) <= Key(order, y)
  {
    var t := s[1..];
    forall i, j | 0 <= i < j < |t| ensures Key(order, t[i]) <= Key(order, t[j]) {
      assert t[i] == s[i + 1] && t[j] == s[j + 1];
    }
    forall y | y in t ensures Key(order, s[0]) <= Key(order, y) {
      var m :| 0 <= m < |t| && t[m] == y;
      assert s[m + 1] == y;
    }
  }

  lemma {:induction false} InsertSorted(order: seq<Id>, x: Task, s: seq<Task>)
    requires SortedByKey(order, s)
    ensures SortedByKey(order, Insert(order, x, s))
    decreases |s|
  {
    if s == [] {
    } else if Key(order, x) <= Key(order, s[0]) {
      SortedTail(order, s);
      SortedCons(order, x, s);
    } else {
      SortedTail(order, s);
      InsertSorted(order, x, s[1..]);
      SortedCons(order, s[0], Insert(order, x, s[1..]));
    }
  }

  /** The result is ordered by key. */
  lemma {:induction false} SortByKeySorted(order: seq<Id>, s: seq<Task>)
    ensures SortedByKey(order, SortByKey(order, s))
    decreases |s|
  {
    if s != [] {
      SortByKeySorted(order, s[1..]);
      InsertSorted(order, s[0], SortByKey(order, s[1..]));
    }
  }

  /* ---------------------------------------------------------------------- */
  /* Stability                                                               */
  /* ---------------------------------------------------------------------- */

  lemma {:induction false} InsertWithKey(order: seq<Id>, x: Task, s: seq<Task>, v: int)
    ensures WithKey(order, Insert(order, x, s), v)
      == (if Key(order, x) == v then [x] else []) + WithKey(order, s, v)
    decreases |s|
  {
    var p := (t: Task) => Key(order, t) == v;
    if s == [] {
      FilterCons(x, [], p);
    } else if Key(order, x) <= Key(order, s[0]) {
      FilterCons(x, s, p);
    } else {
      InsertWithKey(order, x, s[1..], v);
      FilterCons(s[0], Insert(order, x, s[1..]), p);
      FilterCons(s[0], s[1..], p);
      assert s == [s[0]] + s[1..];
    }
  }

  /** Tasks with equal keys keep their relative order. */
  lemma {:induction false} SortByKeyStable(order: seq<Id>, s: seq<Task>, v: int)
    ensures WithKey(order, SortByKey(order, s), v) == WithKey(order, s, v)
    decreases |s|
  {
    if s != [] {
      SortByKeyStable(order, s[1..], v);
      InsertWithKey(order, s[0], SortByKey(order, s[1..]), v);
      FilterCons(s[0], s[1..], (t: Task) => Key(order, t) == v);
      assert s == [s[0]] + s[1..];
    }
  }

  /** A list already ordered by key is its own stable sort. */
  lemma {:induction false} SortByKeyOfSorted(order: seq<Id>, s: seq<Task>)
    requires SortedByKey(order, s)
    ensures SortByKey(order, s) == s
    decreases |s|
  {
    if s != [] {
      var rest := s[1..];
      SortedTail(order, s);
      SortByKeyOfSorted(order, rest);
      InsertLowest(order, s[0], rest);
      assert s == [s[0]] + rest;
    }
  }

  /** A task whose key is not above any other key goes to the front. */
  lemma InsertLowest(order: seq<Id>, x: Task, s: seq<Task>)
    requires forall y :: y in s ==> Key(order, x) <= Key(order, y)
    ensures Insert(order, x, s) == [x] + s
  {
    if s != [] {
      assert s[0] in s;
    }
  }

  /** Filtering keeps a list ordered by key. */
  lemma {:induction false} FilterSortedByKey(order: seq<Id>, s: seq<Task>, p: Task -> bool)
    requires SortedByKey(order, s)
    ensures SortedByKey(order, Filter(s, p))
    decreases |s|
  {
    if s != [] {
      SortedTail(order, s);
      FilterSortedByKey(order, s[1..], p);
      if p(s[0]) {
        SortedCons(order, s[0], Filter(s[1..], p));
      }
    }
  }

  /* ---------------------------------------------------------------------- */
  /* Ids                                                                     */
  /* ---------------------------------------------------------------------- */

  lemma {:induction false} InsertUniqueIds(order: seq<Id>, x: Task, s: seq<Task>)
    requires UniqueIds(s)
    requires forall y :: y in s ==> y.id != x.id
    ensures UniqueIds(Insert(order, x, s))
    decreases |s|
  {
    if s == [] {
    } else if Key(order, x) <= Key(order, s[0]) {
      UniqueIdsConcat([x], s);
    } else {
      var rest := s[1..];
      UniqueIdsTail(s);
      InsertUniqueIds(order, x, rest);
      UniqueIdsConcat([s[0]], Insert(order, x, rest));
    }
  }

  lemma {:induction false} SortByKeyUniqueIds(order: seq<Id>, s: seq<Task>)
    requires UniqueIds(s)
    ensures UniqueIds(SortByKey(order, s))
    ensures forall x {:trigger x in SortByKey(order, s)} :: x in SortByKey(order, s) <==> x in s
    decreases |s|
  {
    if s != [] {
      var rest := s[1..];
      UniqueIdsTail(s);
      SortByKeyUniqueIds(order, rest);
      InsertUniqueIds(order, s[0], SortByKey(order, rest));
      assert s == [s[0]] + rest;
    }
  }
}
