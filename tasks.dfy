/**
 * The task record and the pure list computations of the task store
 * (src/js/tasks-model.js): the three partitions, the canonical sort, the
 * filtered views, the counts, index lookup, id lookup and the saturating
 * previous/next neighbours.  The mutable store itself is TasksModel.TaskStore.
 */
module Tasks {
  import opened Wrappers

  type Id = string

  /** A task record.  `notes` is an opaque rich-text payload, or absent (`null`). */
  datatype Task = Task(id: Id, title: string, completed: bool, deleted: bool,
                       flagged: bool, notes: Option<string>)

  /** The three partitions, in canonical order. */
  datatype Group = Active | Completed | Deleted {
    function Rank(): nat {
      match this
      case Active => 0
      case Completed => 1
      case Deleted => 2
    }
  }

  /** The partition a task belongs to: `deleted` takes precedence over `completed`. */
  function GroupOf(t: Task): Group {
    if t.deleted then Deleted else if t.completed then Completed else Active
  }

  // The filter predicates the source writes inline.
  predicate IsActive(t: Task) { !t.deleted && !t.completed }
  predicate IsCompleted(t: Task) { t.completed && !t.deleted }
  predicate IsDeleted(t: Task) { t.deleted }
  predicate IsNotDeleted(t: Task) { !t.deleted }
  predicate IsChecked(t: Task) { t.completed }
  predicate IsUnchecked(t: Task) { !t.completed }
  predicate IsCheckedDeleted(t: Task) { t.completed && t.deleted }
  predicate IsUncheckedDeleted(t: Task) { !t.completed && t.deleted }

  /** The membership predicate of a partition. */
  function Is(g: Group): Task -> bool {
    match g
    case Active => IsActive
    case Completed => IsCompleted
    case Deleted => IsDeleted
  }

  /* ---------------------------------------------------------------------- */
  /* Sequences of tasks                                                      */
  /* ---------------------------------------------------------------------- */

  /** `Array.prototype.filter`: the elements that satisfy `p`, in their order. */
  function Filter(s: seq<Task>, p: Task -> bool): (r: seq<Task>)
    ensures |r| <= |s|
    ensures forall x {:trigger x in r} :: x in r <==> x in s && p(x)
    decreases |s|
  {
    if s == [] then [] else (if p(s[0]) then [s[0]] else []) + Filter(s[1..], p)
  }

  /** The ids of the tasks, position by position. */
  function Ids(s: seq<Task>): (r: seq<Id>)
    ensures |r| == |s|
    ensures forall i :: 0 <= i < |s| ==> r[i] == s[i].id
  {
    seq(|s|, i requires 0 <= i < |s| => s[i].id)
  }

  /** No two positions hold tasks with the same id. */
  ghost predicate UniqueIds(s: seq<Task>) {
    forall i, j :: 0 <= i < |s| && 0 <= j < |s| && i != j ==> s[i].id != s[j].id
  }

  /** `Array.prototype.indexOf` / `findIndex`: the first position of `x`, or -1. */
  function IndexOf<T(==)>(xs: seq<T>, x: T): (k: int)
    ensures -1 <= k < |xs|
    ensures k == -1 <==> x !in xs
    ensures 0 <= k ==> xs[k] == x && x !in xs[..k]
  {
    if xs == [] then -1
    else if xs[0] == x then 0
    else
      var k := IndexOf(xs[1..], x);
      if k == -1 then -1
      else
        assert xs[..k + 1] == [xs[0]] + xs[1..][..k];
        k + 1
  }

  /** `findIndex(i => i.id === id)`: the first position holding that id, or -1. */
  function FindIndex(s: seq<Task>, id: Id): (k: int)
    ensures -1 <= k < |s|
    ensures k == -1 <==> id !in Ids(s)
    ensures 0 <= k ==> s[k].id == id && forall j :: 0 <= j < k ==> s[j].id != id
  {
    var k := IndexOf(Ids(s), id);
    assert 0 <= k ==> forall j :: 0 <= j < k ==> Ids(s)[..k][j] == s[j].id;
    k
  }

  /** The task of the list that carries `id`. */
  function Lookup(s: seq<Task>, id: Id): (t: Task)
    requires id in Ids(s)
    ensures t in s && t.id == id
  {
    s[FindIndex(s, id)]
  }

  /** `filter(i => i.id !== ...)` for every id of `ids`: the tasks whose id is not listed. */
  function Without(s: seq<Task>, ids: seq<Id>): (r: seq<Task>)
    ensures forall x {:trigger x in r} :: x in r <==> x in s && x.id !in ids
  {
    Filter(s, (x: Task) => x.id !in ids)
  }

  /* ---------------------------------------------------------------------- */
  /* Sorting and views (tasks-model.js:14-53)                                */
  /* ---------------------------------------------------------------------- */

  /**
   * `sortTasks`: active, then completed-and-not-deleted, then deleted.  Every
   * task falls in exactly one of the three, so no task is lost or gained.
   */
  function Sort(s: seq<Task>): (r: seq<Task>)
    ensures forall x {:trigger x in r} :: x in r <==> x in s
  {
    Filter(s, IsActive) + Filter(s, IsCompleted) + Filter(s, IsDeleted)
  }

  /** No task of a later partition precedes a task of an earlier one. */
  ghost predicate Canonical(s: seq<Task>) {
    forall i, j :: 0 <= i < j < |s| ==> GroupOf(s[i]).Rank() <= GroupOf(s[j]).Rank()
  }

  /** Whether a task is shown by the view with the given flags. */
  predicate Visible(t: Task, includeCompleted: bool, includeDeleted: bool) {
    IsActive(t) || (includeCompleted && IsCompleted(t)) || (includeDeleted && IsDeleted(t))
  }

  /** `getTasks(includeCompleted, includeDeleted)`. */
  function GetTasks(s: seq<Task>, includeCompleted: bool, includeDeleted: bool): (r: seq<Task>)
    ensures forall x :: x in r <==> x in s && Visible(x, includeCompleted, includeDeleted)
  {
    Filter(s, IsActive)
      + (if includeCompleted then Filter(s, IsCompleted) else [])
      + (if includeDeleted then Filter(s, IsDeleted) else [])
  }

  /** `getTasks()` with no arguments: both flags default to true. */
  function GetAllTasks(s: seq<Task>): (r: seq<Task>)
    ensures r == Sort(s)
  {
    GetTasks(s, true, true)
  }

  /* ---------------------------------------------------------------------- */
  /* Queries (tasks-model.js:55-86)                                          */
  /* ---------------------------------------------------------------------- */

  /** `getTaskByIndex`: the task at `index` when `length - 1 >= index`, else null. */
  function GetTaskByIndex(s: seq<Task>, index: nat): (r: Option<Task>)
    ensures r.Some? <==> index < |s|
    ensures r.Some? ==> r.value == s[index]
  {
    if |s| - 1 >= index then Some(s[index]) else None
  }

  /** `getNumTasks`: every task, or the tasks whose `completed` flag is false. */
  function GetNumTasks(s: seq<Task>, includeCompleted: bool): (n: nat)
    ensures n <= |s|
    ensures includeCompleted ==> n == |s|
    ensures !includeCompleted ==> (n == 0 <==> forall x :: x in s ==> x.completed)
    ensures !includeCompleted ==> (n == |s| <==> forall x :: x in s ==> !x.completed)
  {
    if includeCompleted then |s| else FilterCount(s, IsUnchecked); |Filter(s, IsUnchecked)|
  }

  /** `getNumActiveTasks`: none exactly when no task is active, all exactly when every one is. */
  function GetNumActiveTasks(s: seq<Task>): (n: nat)
    ensures n <= |s|
    ensures n == 0 <==> forall x :: x in s ==> !IsActive(x)
    ensures n == |s| <==> forall x :: x in s ==> IsActive(x)
  {
    FilterCount(s, IsActive); |Filter(s, IsActive)|
  }

  /** `getNumCompletedTasks` counts the `completed` flag, deleted tasks included. */
  function GetNumCompletedTasks(s: seq<Task>): (n: nat)
    ensures n <= |s|
    ensures n == 0 <==> forall x :: x in s ==> !x.completed
    ensures n == |s| <==> forall x :: x in s ==> x.completed
  {
    FilterCount(s, IsChecked); |Filter(s, IsChecked)|
  }

  /** `getNumDeletedTasks`: none exactly when no task is deleted, all exactly when every one is. */
  function GetNumDeletedTasks(s: seq<Task>): (n: nat)
    ensures n <= |s|
    ensures n == 0 <==> forall x :: x in s ==> !x.deleted
    ensures n == |s| <==> forall x :: x in s ==> x.deleted
  {
    FilterCount(s, IsDeleted); |Filter(s, IsDeleted)|
  }

  /* ---------------------------------------------------------------------- */
  /* Neighbours (tasks-model.js:152-192)                                     */
  /* ---------------------------------------------------------------------- */

  /**
   * `getPreviousTask`: null for null; the task itself when it is the first
   * of the view; otherwise the element before it in the view.
   */
  function GetPreviousTask(s: seq<Task>, task: Option<Task>,
                           includeCompleted: bool, includeDeleted: bool): (r: Option<Task>)
    requires task.Some? ==> task.value.id in Ids(GetTasks(s, includeCompleted, includeDeleted))
    ensures r.Some? <==> task.Some?
    ensures r.Some? ==> r == task || r.value in GetTasks(s, includeCompleted, includeDeleted)
  {
    var view := GetTasks(s, includeCompleted, includeDeleted);
    if task.None? then None
    else
      var k := FindIndex(view, task.value.id);
      if k == 0 then task else Some(view[k - 1])
  }

  /**
   * `getNextTask`: null for null; the task itself when it is the last of
   * the view; otherwise the element after it in the view.
   */
  function GetNextTask(s: seq<Task>, task: Option<Task>,
                       includeCompleted: bool, includeDeleted: bool): (r: Option<Task>)
    requires task.Some? ==> task.value.id in Ids(GetTasks(s, includeCompleted, includeDeleted))
    ensures r.Some? <==> task.Some?
    ensures r.Some? ==> r == task || r.value in GetTasks(s, includeCompleted, includeDeleted)
  {
    var view := GetTasks(s, includeCompleted, includeDeleted);
    if task.None? then None
    else
      var k := FindIndex(view, task.value.id);
      if k == |view| - 1 then task else Some(view[k + 1])
  }

  /* ---------------------------------------------------------------------- */
  /* Lemmas: filters                                                         */
  /* ---------------------------------------------------------------------- */

  lemma {:induction false} FilterConcat(a: seq<Task>, b: seq<Task>, p: Task -> bool)
    ensures Filter(a + b, p) == Filter(a, p) + Filter(b, p)
    decreases |a|
  {
    if a == [] {
      assert a + b == b;
    } else {
      var ab := a + b;
      assert ab[0] == a[0];
      assert ab[1..] == a[1..] + b;
      var head := if p(a[0]) then [a[0]] else [];
      FilterConcat(a[1..], b, p);
      calc {
        Filter(ab, p);
        head + Filter(a[1..] + b, p);
        head + (Filter(a[1..], p) + Filter(b, p));
        { assert head + (Filter(a[1..], p) + Filter(b, p)) == (head + Filter(a[1..], p)) + Filter(b, p); }
        Filter(a, p) + Filter(b, p);
      }
    }
  }

  lemma {:induction false} FilterAll(s: seq<Task>, p: Task -> bool)
    requires forall x :: x in s ==> p(x)
    ensures Filter(s, p) == s
    decreases |s|
  {
    if s != [] {
      assert forall x :: x in s[1..] ==> x in s;
      FilterAll(s[1..], p);
      assert s == [s[0]] + s[1..];
    }
  }

  lemma FilterNone(s: seq<Task>, p: Task -> bool)
    requires forall x :: x in s ==> !p(x)
    ensures Filter(s, p) == []
  {
  }

  /** A filter keeps nothing exactly when `p` holds nowhere, and everything exactly when it holds everywhere. */
  lemma {:induction false} FilterCount(s: seq<Task>, p: Task -> bool)
    ensures |Filter(s, p)| == 0 <==> forall x :: x in s ==> !p(x)
    ensures |Filter(s, p)| == |s| <==> forall x :: x in s ==> p(x)
    decreases |s|
  {
    if Filter(s, p) != [] {
      assert Filter(s, p)[0] in Filter(s, p);
    }
    if s != [] {
      var rest := s[1..];
      FilterCount(rest, p);
      assert s == [s[0]] + rest;
      assert forall x :: x in s <==> x == s[0] || x in rest;
    }
  }

  /** When `p` holds exactly where one of the disjoint `q` and `r` holds, its filter is the sum of theirs. */
  lemma {:induction false} FilterSplit(s: seq<Task>, p: Task -> bool, q: Task -> bool, r: Task -> bool)
    requires forall x :: x in s ==> ((p(x) <==> q(x) || r(x)) && !(q(x) && r(x)))
    ensures multiset(Filter(s, p)) == multiset(Filter(s, q)) + multiset(Filter(s, r))
    decreases |s|
  {
    if s != [] {
      assert forall x :: x in s[1..] ==> x in s;
      FilterSplit(s[1..], p, q, r);
    }
  }

  /** Two complementary filters together hold every element. */
  lemma {:induction false} FilterComplement(s: seq<Task>, q: Task -> bool, r: Task -> bool)
    requires forall x :: x in s ==> q(x) != r(x)
    ensures multiset(Filter(s, q)) + multiset(Filter(s, r)) == multiset(s)
    decreases |s|
  {
    if s != [] {
      var rest := s[1..];
      assert s == [s[0]] + rest;
      assert forall x :: x in rest ==> x in s;
      FilterComplement(rest, q, r);
      FilterCons(s[0], rest, q);
      FilterCons(s[0], rest, r);
      assert multiset(s) == multiset{s[0]} + multiset(rest);
    }
  }

  /* ---------------------------------------------------------------------- */
  /* Lemmas: unique ids                                                      */
  /* ---------------------------------------------------------------------- */

  lemma SameIdSameTask(s: seq<Task>, x: Task, y: Task)
    requires UniqueIds(s) && x in s && y in s && x.id == y.id
    ensures x == y
  {
    var i :| 0 <= i < |s| && s[i] == x;
    var j :| 0 <= j < |s| && s[j] == y;
  }

  lemma {:induction false} FilterUniqueIds(s: seq<Task>, p: Task -> bool)
    requires UniqueIds(s)
    ensures UniqueIds(Filter(s, p))
    decreases |s|
  {
    if s != [] {
      var rest := s[1..];
      assert UniqueIds(rest) by {
        forall i, j | 0 <= i < |rest| && 0 <= j < |rest| && i != j
          ensures rest[i].id != rest[j].id
        {
          assert rest[i] == s[i + 1] && rest[j] == s[j + 1];
        }
      }
      FilterUniqueIds(rest, p);
      var r' := Filter(rest, p);
      forall y | y in r' ensures y.id != s[0].id {
        var m :| 0 <= m < |rest| && rest[m] == y;
        assert s[m + 1] == y;
      }
      var r := Filter(s, p);
      if p(s[0]) {
        forall i, j | 0 <= i < |r| && 0 <= j < |r| && i != j ensures r[i].id != r[j].id {
          if i > 0 {
            assert r[i] == r'[i - 1] && r[i] in r';
          }
          if j > 0 {
            assert r[j] == r'[j - 1] && r[j] in r';
          }
        }
      } else {
        assert r == r';
      }
    }
  }

  lemma UniqueIdsConcat(a: seq<Task>, b: seq<Task>)
    requires UniqueIds(a) && UniqueIds(b)
    requires forall x, y :: x in a && y in b ==> x.id != y.id
    ensures UniqueIds(a + b)
  {
    var r := a + b;
    forall i, j | 0 <= i < |r| && 0 <= j < |r| && i != j ensures r[i].id != r[j].id {
      if i < |a| {
        assert r[i] == a[i] && r[i] in a;
      } else {
        assert r[i] == b[i - |a|] && r[i] in b;
      }
      if j < |a| {
        assert r[j] == a[j] && r[j] in a;
      } else {
        assert r[j] == b[j - |a|] && r[j] in b;
      }
    }
  }

  /** Filters by predicates that never hold together share no id. */
  lemma DisjointFilterIds(s: seq<Task>, p: Task -> bool, q: Task -> bool)
    requires UniqueIds(s)
    requires forall x :: x in s ==> !(p(x) && q(x))
    ensures forall x, y :: x in Filter(s, p) && y in Filter(s, q) ==> x.id != y.id
  {
    forall x, y | x in Filter(s, p) && y in Filter(s, q) ensures x.id != y.id {
      if x.id == y.id {
        SameIdSameTask(s, x, y);
      }
    }
  }

  /** With unique ids, `findIndex` finds exactly the position of the task. */
  lemma FindIndexUnique(s: seq<Task>, k: nat)
    requires UniqueIds(s) && k < |s|
    ensures FindIndex(s, s[k].id) == k
  {
    assert Ids(s)[k] == s[k].id;
  }

  /* ---------------------------------------------------------------------- */
  /* Lemmas: the canonical sort                                              */
  /* ---------------------------------------------------------------------- */

  /** Three runs, all active, all completed, all deleted, concatenate to a canonical list. */
  lemma CanonicalOfParts(a: seq<Task>, c: seq<Task>, d: seq<Task>)
    requires forall x :: x in a ==> IsActive(x)
    requires forall x :: x in c ==> IsCompleted(x)
    requires forall x :: x in d ==> IsDeleted(x)
    ensures Canonical(a + c + d)
  {
    var r := a + c + d;
    forall k | 0 <= k < |r|
      ensures GroupOf(r[k]).Rank() == if k < |a| then 0 else if k < |a| + |c| then 1 else 2
    {
      if k < |a| {
        assert r[k] == a[k] && a[k] in a;
      } else if k < |a| + |c| {
        assert r[k] == c[k - |a|] && c[k - |a|] in c;
      } else {
        assert r[k] == d[k - |a| - |c|] && d[k - |a| - |c|] in d;
      }
    }
  }

  /** The partitions of such a concatenation are its three runs. */
  lemma PartsOfParts(a: seq<Task>, c: seq<Task>, d: seq<Task>, g: Group)
    requires forall x :: x in a ==> IsActive(x)
    requires forall x :: x in c ==> IsCompleted(x)
    requires forall x :: x in d ==> IsDeleted(x)
    ensures Filter(a + c + d, Is(g)) == match g case Active => a case Completed => c case Deleted => d
  {
    match g
    case Active => PartsOfActive(a, c, d);
    case Completed => PartsOfCompleted(a, c, d);
    case Deleted => PartsOfDeleted(a, c, d);
  }

  lemma PartsOfActive(a: seq<Task>, c: seq<Task>, d: seq<Task>)
    requires forall x :: x in a ==> IsActive(x)
    requires forall x :: x in c ==> IsCompleted(x)
    requires forall x :: x in d ==> IsDeleted(x)
    ensures Filter(a + c + d, IsActive) == a
  {
    FilterConcat(a + c, d, IsActive);
    FilterConcat(a, c, IsActive);
    FilterAll(a, IsActive);
    FilterNone(c, IsActive);
    FilterNone(d, IsActive);
  }

  lemma PartsOfCompleted(a: seq<Task>, c: seq<Task>, d: seq<Task>)
    requires forall x :: x in a ==> IsActive(x)
    requires forall x :: x in c ==> IsCompleted(x)
    requires forall x :: x in d ==> IsDeleted(x)
    ensures Filter(a + c + d, IsCompleted) == c
  {
    FilterConcat(a + c, d, IsCompleted);
    FilterConcat(a, c, IsCompleted);
    FilterNone(a, IsCompleted);
    FilterAll(c, IsCompleted);
    FilterNone(d, IsCompleted);
  }

  lemma PartsOfDeleted(a: seq<Task>, c: seq<Task>, d: seq<Task>)
    requires forall x :: x in a ==> IsActive(x)
    requires forall x :: x in c ==> IsCompleted(x)
    requires forall x :: x in d ==> IsDeleted(x)
    ensures Filter(a + c + d, IsDeleted) == d
  {
    FilterConcat(a + c, d, IsDeleted);
    FilterConcat(a, c, IsDeleted);
    FilterNone(a, IsDeleted);
    FilterNone(c, IsDeleted);
    FilterAll(d, IsDeleted);
  }

  /** `sortTasks` only reorders: the result is a permutation of the list. */
  lemma SortPermutation(s: seq<Task>)
    ensures multiset(Sort(s)) == multiset(s)
    ensures |Sort(s)| == |s|
  {
    FilterComplement(s, IsNotDeleted, IsDeleted);
    FilterSplit(s, IsNotDeleted, IsActive, IsCompleted);
    assert |multiset(Sort(s))| == |Sort(s)|;
  }

  /** `sortTasks` yields canonical order. */
  lemma SortCanonical(s: seq<Task>)
    ensures Canonical(Sort(s))
  {
    CanonicalOfParts(Filter(s, IsActive), Filter(s, IsCompleted), Filter(s, IsDeleted));
  }

  /** `sortTasks` keeps each partition in its prior relative order. */
  lemma SortStable(s: seq<Task>, g: Group)
    ensures Filter(Sort(s), Is(g)) == Filter(s, Is(g))
  {
    PartsOfParts(Filter(s, IsActive), Filter(s, IsCompleted), Filter(s, IsDeleted), g);
  }

  /** The tail of a canonical list is canonical, and its head ranks lowest. */
  lemma CanonicalTail(s: seq<Task>)
    requires Canonical(s) && s != []
    ensures Canonical(s[1..])
    ensures forall x :: x in s[1..] ==> GroupOf(s[0]).Rank() <= GroupOf(x).Rank()
  {
    var rest := s[1..];
    forall i, j | 0 <= i < j < |rest|
      ensures GroupOf(rest[i]).Rank() <= GroupOf(rest[j]).Rank()
    {
      assert rest[i] == s[i + 1] && rest[j] == s[j + 1];
    }
    forall x | x in rest ensures GroupOf(s[0]).Rank() <= GroupOf(x).Rank() {
      var m :| 0 <= m < |rest| && rest[m] == x;
      assert s[m + 1] == x;
    }
  }

  /** A filter of a list that starts with `t`. */
  lemma FilterCons(t: Task, rest: seq<Task>, p: Task -> bool)
    ensures Filter([t] + rest, p) == (if p(t) then [t] else []) + Filter(rest, p)
  {
    assert ([t] + rest)[1..] == rest;
  }

  lemma SortConsActive(t: Task, rest: seq<Task>)
    requires IsActive(t)
    ensures Sort([t] + rest) == [t] + Sort(rest)
  {
    FilterCons(t, rest, IsActive);
    FilterCons(t, rest, IsCompleted);
    FilterCons(t, rest, IsDeleted);
    var a, c, d := Filter(rest, IsActive), Filter(rest, IsCompleted), Filter(rest, IsDeleted);
    assert ([t] + a) + c + d == [t] + (a + c + d);
  }

  lemma SortConsCompleted(t: Task, rest: seq<Task>)
    requires IsCompleted(t) && forall x :: x in rest ==> !IsActive(x)
    ensures Sort([t] + rest) == [t] + Sort(rest)
  {
    var c, d := Filter(rest, IsCompleted), Filter(rest, IsDeleted);
    assert Filter([t] + rest, IsActive) == [] by {
      FilterCons(t, rest, IsActive);
      FilterNone(rest, IsActive);
    }
    assert Filter([t] + rest, IsCompleted) == [t] + c by {
      FilterCons(t, rest, IsCompleted);
    }
    assert Filter([t] + rest, IsDeleted) == d by {
      FilterCons(t, rest, IsDeleted);
    }
    assert Sort(rest) == c + d by {
      FilterNone(rest, IsActive);
    }
    assert [] + ([t] + c) + d == [t] + (c + d);
  }

  lemma SortConsDeleted(t: Task, rest: seq<Task>)
    requires IsDeleted(t) && forall x :: x in rest ==> IsDeleted(x)
    ensures Sort([t] + rest) == [t] + Sort(rest)
  {
    FilterCons(t, rest, IsActive);
    FilterCons(t, rest, IsCompleted);
    FilterCons(t, rest, IsDeleted);
    FilterNone(rest, IsActive);
    FilterNone(rest, IsCompleted);
    var d := Filter(rest, IsDeleted);
    assert [] + [] + ([t] + d) == [t] + ([] + [] + d);
  }

  /** Sorting a list whose head ranks lowest keeps the head in front. */
  lemma SortConsLowest(t: Task, rest: seq<Task>)
    requires forall x :: x in rest ==> GroupOf(t).Rank() <= GroupOf(x).Rank()
    ensures Sort([t] + rest) == [t] + Sort(rest)
  {
    if IsActive(t) {
      SortConsActive(t, rest);
    } else if IsCompleted(t) {
      SortConsCompleted(t, rest);
    } else {
      SortConsDeleted(t, rest);
    }
  }

  /** A canonical list is its own sort. */
  lemma {:induction false} CanonicalSorted(s: seq<Task>)
    requires Canonical(s)
    ensures Sort(s) == s
    decreases |s|
  {
    if s != [] {
      CanonicalTail(s);
      CanonicalSorted(s[1..]);
      SortConsLowest(s[0], s[1..]);
      assert s == [s[0]] + s[1..];
    }
  }

  /** Sorting leaves a list unchanged exactly when it is already canonical. */
  lemma CanonicalIffSorted(s: seq<Task>)
    ensures Canonical(s) <==> Sort(s) == s
  {
    SortCanonical(s);
    if Canonical(s) {
      CanonicalSorted(s);
    }
  }

  /**
   * `Sort(s)` is the one canonical list whose partitions are those of `s`:
   * an independent characterisation of the sort.
   */
  lemma SortCharacterization(s: seq<Task>, r: seq<Task>)
    ensures r == Sort(s) <==>
      && Canonical(r)
      && Filter(r, IsActive) == Filter(s, IsActive)
      && Filter(r, IsCompleted) == Filter(s, IsCompleted)
      && Filter(r, IsDeleted) == Filter(s, IsDeleted)
  {
    SortCanonical(s);
    SortStable(s, Active);
    SortStable(s, Completed);
    SortStable(s, Deleted);
    if Canonical(r) {
      CanonicalSorted(r);
    }
  }

  lemma SortIdempotent(s: seq<Task>)
    ensures Sort(Sort(s)) == Sort(s)
  {
    SortCanonical(s);
    CanonicalSorted(Sort(s));
  }

  /* ---------------------------------------------------------------------- */
  /* Lemmas: views                                                           */
  /* ---------------------------------------------------------------------- */

  /** A view is canonical, and each partition is the list's own or empty when hidden. */
  lemma GetTasksParts(s: seq<Task>, includeCompleted: bool, includeDeleted: bool)
    ensures var view := GetTasks(s, includeCompleted, includeDeleted);
      && Canonical(view)
      && Filter(view, IsActive) == Filter(s, IsActive)
      && Filter(view, IsCompleted) == (if includeCompleted then Filter(s, IsCompleted) else [])
      && Filter(view, IsDeleted) == (if includeDeleted then Filter(s, IsDeleted) else [])
  {
    var a := Filter(s, IsActive);
    var c := if includeCompleted then Filter(s, IsCompleted) else [];
    var d := if includeDeleted then Filter(s, IsDeleted) else [];
    CanonicalOfParts(a, c, d);
    PartsOfParts(a, c, d, Active);
    PartsOfParts(a, c, d, Completed);
    PartsOfParts(a, c, d, Deleted);
  }

  /** `getTasks()` of a canonical list is the list itself. */
  lemma GetAllTasksCanonical(s: seq<Task>)
    requires Canonical(s)
    ensures GetAllTasks(s) == s
  {
    CanonicalSorted(s);
  }

  lemma GetTasksUniqueIds(s: seq<Task>, includeCompleted: bool, includeDeleted: bool)
    requires UniqueIds(s)
    ensures UniqueIds(GetTasks(s, includeCompleted, includeDeleted))
  {
    var a := Filter(s, IsActive);
    var c := if includeCompleted then Filter(s, IsCompleted) else [];
    var d := if includeDeleted then Filter(s, IsDeleted) else [];
    FilterUniqueIds(s, IsActive);
    FilterUniqueIds(s, IsCompleted);
    FilterUniqueIds(s, IsDeleted);
    DisjointFilterIds(s, IsActive, IsCompleted);
    DisjointFilterIds(s, IsActive, IsDeleted);
    DisjointFilterIds(s, IsCompleted, IsDeleted);
    UniqueIdsConcat(a, c);
    UniqueIdsConcat(a + c, d);
  }

  lemma SortUniqueIds(s: seq<Task>)
    requires UniqueIds(s)
    ensures UniqueIds(Sort(s))
  {
    GetTasksUniqueIds(s, true, true);
  }

  /* ---------------------------------------------------------------------- */
  /* Lemmas: counts                                                          */
  /* ---------------------------------------------------------------------- */

  /**
   * The partitions add up to the list; `getNumTasks(false)` counts deleted
   * tasks whose `completed` flag is false, and `getNumCompletedTasks`
   * counts deleted tasks whose `completed` flag is true.
   */
  lemma CountsAddUp(s: seq<Task>)
    ensures GetNumActiveTasks(s) + |Filter(s, IsCompleted)| + GetNumDeletedTasks(s) == |s|
    ensures GetNumTasks(s, false) + GetNumCompletedTasks(s) == |s|
    ensures GetNumCompletedTasks(s) == |Filter(s, IsCompleted)| + |Filter(s, IsCheckedDeleted)|
    ensures GetNumTasks(s, false) == GetNumActiveTasks(s) + |Filter(s, IsUncheckedDeleted)|
  {
    SortPermutation(s);
    FilterComplement(s, IsUnchecked, IsChecked);
    assert |multiset(s)| == |s|;
    FilterSplit(s, IsChecked, IsCompleted, IsCheckedDeleted);
    FilterSplit(s, IsUnchecked, IsActive, IsUncheckedDeleted);
  }

  /* ---------------------------------------------------------------------- */
  /* Lemmas: neighbours                                                      */
  /* ---------------------------------------------------------------------- */

  /** `getPreviousTask` of the k-th task of the view: the (k-1)-th, saturating at the first. */
  lemma PreviousAt(s: seq<Task>, includeCompleted: bool, includeDeleted: bool, k: nat)
    requires UniqueIds(s)
    requires k < |GetTasks(s, includeCompleted, includeDeleted)|
    ensures var view := GetTasks(s, includeCompleted, includeDeleted);
      GetPreviousTask(s, Some(view[k]), includeCompleted, includeDeleted)
        == Some(view[if k == 0 then 0 else k - 1])
  {
    var view := GetTasks(s, includeCompleted, includeDeleted);
    GetTasksUniqueIds(s, includeCompleted, includeDeleted);
    FindIndexUnique(view, k);
  }

  /** `getNextTask` of the k-th task of the view: the (k+1)-th, saturating at the last. */
  lemma NextAt(s: seq<Task>, includeCompleted: bool, includeDeleted: bool, k: nat)
    requires UniqueIds(s)
    requires k < |GetTasks(s, includeCompleted, includeDeleted)|
    ensures var view := GetTasks(s, includeCompleted, includeDeleted);
      GetNextTask(s, Some(view[k]), includeCompleted, includeDeleted)
        == Some(view[if k == |view| - 1 then k else k + 1])
  {
    var view := GetTasks(s, includeCompleted, includeDeleted);
    GetTasksUniqueIds(s, includeCompleted, includeDeleted);
    FindIndexUnique(view, k);
  }

  /** `getPreviousTask` of a task of the list whose id is in the view. */
  lemma PreviousOfTask(s: seq<Task>, includeCompleted: bool, includeDeleted: bool, t: Task)
    requires UniqueIds(s) && t in s && t.id in Ids(GetTasks(s, includeCompleted, includeDeleted))
    ensures var view := GetTasks(s, includeCompleted, includeDeleted);
      var k := FindIndex(view, t.id);
      var r := GetPreviousTask(s, Some(t), includeCompleted, includeDeleted);
      && 0 <= k && r == Some(view[if k == 0 then 0 else k - 1]) && r.value.id in Ids(s)
  {
    var view := GetTasks(s, includeCompleted, includeDeleted);
    var k := FindIndex(view, t.id);
    assert view[k] in s;
    SameIdSameTask(s, view[k], t);
    PreviousAt(s, includeCompleted, includeDeleted, k);
    IdInIds(s, view[if k == 0 then 0 else k - 1]);
  }

  /** `getNextTask` of a task of the list whose id is in the view. */
  lemma NextOfTask(s: seq<Task>, includeCompleted: bool, includeDeleted: bool, t: Task)
    requires UniqueIds(s) && t in s && t.id in Ids(GetTasks(s, includeCompleted, includeDeleted))
    ensures var view := GetTasks(s, includeCompleted, includeDeleted);
      var k := FindIndex(view, t.id);
      var r := GetNextTask(s, Some(t), includeCompleted, includeDeleted);
      && 0 <= k && r == Some(view[if k == |view| - 1 then k else k + 1]) && r.value.id in Ids(s)
  {
    var view := GetTasks(s, includeCompleted, includeDeleted);
    var k := FindIndex(view, t.id);
    assert view[k] in s;
    SameIdSameTask(s, view[k], t);
    NextAt(s, includeCompleted, includeDeleted, k);
    IdInIds(s, view[if k == |view| - 1 then k else k + 1]);
  }

  /* ---------------------------------------------------------------------- */
  /* Lemmas: removal by id                                                   */
  /* ---------------------------------------------------------------------- */

  /** Removing an id that no task carries changes nothing. */
  lemma WithoutAbsent(s: seq<Task>, ids: seq<Id>)
    requires forall x :: x in s ==> x.id !in ids
    ensures Without(s, ids) == s
  {
    FilterAll(s, (x: Task) => x.id !in ids);
  }

  lemma WithoutConcat(a: seq<Task>, b: seq<Task>, ids: seq<Id>)
    ensures Without(a + b, ids) == Without(a, ids) + Without(b, ids)
  {
    FilterConcat(a, b, (x: Task) => x.id !in ids);
  }

  /** With unique ids, no other position holds the id of the k-th task. */
  lemma WithoutAround(s: seq<Task>, k: nat)
    requires UniqueIds(s) && k < |s|
    ensures Without(s[..k], [s[k].id]) == s[..k]
    ensures Without(s[k + 1..], [s[k].id]) == s[k + 1..]
  {
    var ids := [s[k].id];
    var before, after := s[..k], s[k + 1..];
    forall x | x in before ensures x.id !in ids {
      var m :| 0 <= m < |before| && before[m] == x;
      assert s[m] == x;
    }
    forall x | x in after ensures x.id !in ids {
      var m :| 0 <= m < |after| && after[m] == x;
      assert s[k + 1 + m] == x;
    }
    WithoutAbsent(before, ids);
    WithoutAbsent(after, ids);
  }

  lemma WithoutCons(t: Task, rest: seq<Task>, ids: seq<Id>)
    ensures Without([t] + rest, ids) == (if t.id in ids then [] else [t]) + Without(rest, ids)
  {
    FilterCons(t, rest, (x: Task) => x.id !in ids);
  }

  /**
   * Taking one id out of a list with unique ids removes exactly the task at
   * its position, changes nothing when the id is absent, and leaves the ids
   * minus that one.
   */
  lemma WithoutOne(s: seq<Task>, id: Id)
    requires UniqueIds(s)
    ensures id !in Ids(s) ==> Without(s, [id]) == s
    ensures forall k :: 0 <= k < |s| && s[k].id == id ==> Without(s, [id]) == s[..k] + s[k + 1..]
    ensures forall x :: x in Ids(Without(s, [id])) <==> x in Ids(s) && x != id
  {
    if id !in Ids(s) {
      forall t | t in s ensures t.id !in [id] {
        IdInIds(s, t);
      }
      WithoutAbsent(s, [id]);
    }
    forall k | 0 <= k < |s| && s[k].id == id
      ensures Without(s, [id]) == s[..k] + s[k + 1..]
    {
      WithoutAt(s, k);
    }
    forall x ensures x in Ids(Without(s, [id])) <==> x in Ids(s) && x != id {
      IdsWithout(s, [id], x);
    }
  }

  /** With unique ids, removing the id of the k-th task removes exactly that position. */
  lemma WithoutAt(s: seq<Task>, k: nat)
    requires UniqueIds(s) && k < |s|
    ensures Without(s, [s[k].id]) == s[..k] + s[k + 1..]
  {
    var ids := [s[k].id];
    var before, after := s[..k], s[k + 1..];
    assert s == before + ([s[k]] + after);
    WithoutAround(s, k);
    WithoutCons(s[k], after, ids);
    WithoutConcat(before, [s[k]] + after, ids);
    calc {
      Without(s, ids);
      Without(before, ids) + Without([s[k]] + after, ids);
      before + ([] + Without(after, ids));
      { assert [] + after == after; }
      before + after;
    }
  }

  /** Removing one list of ids after another is removing both. */
  lemma {:induction false} WithoutWithout(s: seq<Task>, ids: seq<Id>, more: seq<Id>)
    ensures Without(Without(s, ids), more) == Without(s, ids + more)
    decreases |s|
  {
    if s != [] {
      var h := if s[0].id !in ids then [s[0]] else [];
      assert Without(s, ids) == h + Without(s[1..], ids);
      WithoutConcat(h, Without(s[1..], ids), more);
      WithoutWithout(s[1..], ids, more);
    }
  }

  /** Taking out the ids of every deleted task leaves exactly the tasks not deleted. */
  lemma PurgedAll(s: seq<Task>)
    requires UniqueIds(s)
    ensures Without(s, Ids(Filter(s, IsDeleted))) == Filter(s, IsNotDeleted)
    ensures forall x :: x in Without(s, Ids(Filter(s, IsDeleted))) ==> !x.deleted
  {
    WithoutDeletedIds(s);
  }

  /** Removing the ids of a prefix, then the next id, is removing the ids of the longer prefix. */
  lemma WithoutPrefixStep(s: seq<Task>, r: seq<Task>, i: nat)
    requires i < |r|
    ensures Without(Without(s, Ids(r[..i])), [r[i].id]) == Without(s, Ids(r[..i + 1]))
  {
    WithoutWithout(s, Ids(r[..i]), [r[i].id]);
    IdsPrefix(r, i);
  }

  lemma WithoutUniqueIds(s: seq<Task>, ids: seq<Id>)
    requires UniqueIds(s)
    ensures UniqueIds(Without(s, ids))
  {
    FilterUniqueIds(s, (x: Task) => x.id !in ids);
  }

  /** The tail of a list with unique ids has unique ids, none of them the head's. */
  lemma UniqueIdsTail(s: seq<Task>)
    requires UniqueIds(s) && s != []
    ensures UniqueIds(s[1..])
    ensures forall y :: y in s[1..] ==> y.id != s[0].id
  {
    var rest := s[1..];
    forall i, j | 0 <= i < |rest| && 0 <= j < |rest| && i != j
      ensures rest[i].id != rest[j].id
    {
      assert rest[i] == s[i + 1] && rest[j] == s[j + 1];
    }
    forall y | y in rest ensures y.id != s[0].id {
      var m :| 0 <= m < |rest| && rest[m] == y;
      assert s[m + 1] == y;
    }
  }

  /** Removing the ids of the deleted tasks keeps exactly the non-deleted ones, in order. */
  lemma {:induction false} WithoutDeletedIds(s: seq<Task>)
    requires UniqueIds(s)
    ensures Without(s, Ids(Filter(s, IsDeleted))) == Filter(s, IsNotDeleted)
    decreases |s|
  {
    if s != [] {
      var t, rest := s[0], s[1..];
      assert s == [t] + rest;
      UniqueIdsTail(s);
      WithoutDeletedIds(rest);
      var dr := Filter(rest, IsDeleted);
      var ds := Filter(s, IsDeleted);
      FilterCons(t, rest, IsDeleted);
      // t's id is listed exactly when t is deleted
      assert t.id in Ids(ds) <==> t.deleted by {
        assert Ids(ds) == (if t.deleted then [t.id] else []) + Ids(dr);
        forall m | 0 <= m < |dr| ensures Ids(dr)[m] != t.id {
          assert dr[m] in dr;
        }
      }
      // the rest sees the same ids whether or not t's is among them
      assert Without(rest, Ids(ds)) == Without(rest, Ids(dr)) by {
        assert Ids(ds) == (if t.deleted then [t.id] else []) + Ids(dr);
        FilterExtensional(rest, (x: Task) => x.id !in Ids(ds), (x: Task) => x.id !in Ids(dr));
      }
      WithoutCons(t, rest, Ids(ds));
      FilterCons(t, rest, IsNotDeleted);
    }
  }

  lemma {:induction false} FilterExtensional(s: seq<Task>, p: Task -> bool, q: Task -> bool)
    requires forall x :: x in s ==> p(x) == q(x)
    ensures Filter(s, p) == Filter(s, q)
    decreases |s|
  {
    if s != [] {
      assert forall x :: x in s[1..] ==> x in s;
      FilterExtensional(s[1..], p, q);
    }
  }

  /* ---------------------------------------------------------------------- */
  /* Lemmas: placement by the mutators                                       */
  /* ---------------------------------------------------------------------- */

  lemma IdInIds(s: seq<Task>, x: Task)
    requires x in s
    ensures x.id in Ids(s)
  {
    var m :| 0 <= m < |s| && s[m] == x;
    assert Ids(s)[m] == x.id;
  }

  /** Adding a task with a fresh id at either end keeps the ids unique. */
  lemma UniqueIdsAdd(s: seq<Task>, t: Task)
    requires UniqueIds(s) && t.id !in Ids(s)
    ensures UniqueIds([t] + s) && UniqueIds(s + [t])
  {
    forall x | x in s ensures x.id != t.id {
      IdInIds(s, x);
    }
    UniqueIdsConcat([t], s);
    UniqueIdsConcat(s, [t]);
  }

  /** A removed id is no longer carried by any task. */
  lemma WithoutIds(s: seq<Task>, ids: seq<Id>, id: Id)
    requires id in ids
    ensures id !in Ids(Without(s, ids))
  {
    var r := Without(s, ids);
    forall m | 0 <= m < |r| ensures Ids(r)[m] != id {
      assert r[m] in r;
    }
  }

  /**
   * `addTask(t, "top")`: after the sort, `t` leads its own partition and every
   * partition otherwise keeps its prior relative order.
   */
  lemma SortAddTop(t: Task, s: seq<Task>, g: Group)
    ensures Filter(Sort([t] + s), Is(g))
      == (if GroupOf(t) == g then [t] else []) + Filter(s, Is(g))
  {
    SortStable([t] + s, g);
    FilterCons(t, s, Is(g));
  }

  /**
   * `addTask(t, "bottom")`: after the sort, `t` ends its own partition and
   * every partition otherwise keeps its prior relative order.
   */
  lemma SortAddBottom(t: Task, s: seq<Task>, g: Group)
    ensures Filter(Sort(s + [t]), Is(g))
      == Filter(s, Is(g)) + (if GroupOf(t) == g then [t] else [])
  {
    SortStable(s + [t], g);
    FilterConcat(s, [t], Is(g));
  }

  /**
   * Flipping `flagged` in place changes no partition: the order stays
   * canonical, the ids stay where they were.
   */
  lemma FlagKeepsOrder(s: seq<Task>, k: nat, flagged: bool)
    requires k < |s|
    ensures var s' := s[k := s[k].(flagged := flagged)];
      && Ids(s') == Ids(s)
      && (forall i :: 0 <= i < |s| ==> GroupOf(s'[i]) == GroupOf(s[i]))
      && (Canonical(s) ==> Canonical(s'))
  {
    var s' := s[k := s[k].(flagged := flagged)];
    assert forall i :: 0 <= i < |s| ==> GroupOf(s'[i]) == GroupOf(s[i]);
  }

  /* ---------------------------------------------------------------------- */
  /* Lemmas: which ids a list carries                                        */
  /* ---------------------------------------------------------------------- */

  /** The sort keeps exactly the members of the list. */
  lemma InSort(s: seq<Task>)
    ensures forall x :: x in Sort(s) <==> x in s
  {
    assert GetAllTasks(s) == Sort(s);
  }

  /** Lists with the same members carry the same ids. */
  lemma IdsOfSameMembers(s: seq<Task>, r: seq<Task>, id: Id)
    requires forall x :: x in s <==> x in r
    ensures id in Ids(s) <==> id in Ids(r)
  {
    if id in Ids(s) {
      var m :| 0 <= m < |s| && Ids(s)[m] == id;
      assert s[m] in s;
      IdInIds(r, s[m]);
    }
    if id in Ids(r) {
      var m :| 0 <= m < |r| && Ids(r)[m] == id;
      assert r[m] in r;
      IdInIds(s, r[m]);
    }
  }

  lemma IdsSort(s: seq<Task>, id: Id)
    ensures id in Ids(Sort(s)) <==> id in Ids(s)
  {
    InSort(s);
    IdsOfSameMembers(Sort(s), s, id);
  }

  /** Removal by id keeps exactly the ids that are not listed. */
  lemma IdsWithout(s: seq<Task>, ids: seq<Id>, id: Id)
    ensures id in Ids(Without(s, ids)) <==> id in Ids(s) && id !in ids
  {
    var r := Without(s, ids);
    if id in Ids(r) {
      var m :| 0 <= m < |r| && Ids(r)[m] == id;
      assert r[m] in r;
      IdInIds(s, r[m]);
    }
    if id in Ids(s) && id !in ids {
      var m :| 0 <= m < |s| && Ids(s)[m] == id;
      assert s[m] in s;
      IdInIds(r, s[m]);
    }
  }

  /** The ids of a prefix one longer end with the id of the next task. */
  lemma IdsPrefix(s: seq<Task>, i: nat)
    requires i < |s|
    ensures Ids(s[..i + 1]) == Ids(s[..i]) + [s[i].id]
  {
    var l, r := Ids(s[..i + 1]), Ids(s[..i]) + [s[i].id];
    assert |l| == |r|;
    forall m | 0 <= m < |l| ensures l[m] == r[m] {
      assert s[..i + 1][m] == s[m];
      if m < i {
        assert s[..i][m] == s[m];
      }
    }
  }

  lemma IdsAdd(t: Task, s: seq<Task>, id: Id)
    ensures id in Ids([t] + s) <==> id == t.id || id in Ids(s)
    ensures id in Ids(s + [t]) <==> id == t.id || id in Ids(s)
  {
    assert Ids([t] + s) == [t.id] + Ids(s);
    assert Ids(s + [t]) == Ids(s) + [t.id];
  }

  /**
   * Taking a task out by id and adding a task with that id back, then
   * sorting, leaves the set of ids as it was plus that id.
   */
  lemma IdsReinsert(t: Task, s: seq<Task>, id: Id)
    ensures id in Ids(Sort([t] + Without(s, [t.id]))) <==> id == t.id || id in Ids(s)
  {
    IdsSort([t] + Without(s, [t.id]), id);
    IdsAdd(t, Without(s, [t.id]), id);
    IdsWithout(s, [t.id], id);
  }
}
