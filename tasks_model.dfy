/**
 * The task store of src/js/tasks-model.js: the module variable `_tasks`
 * and the operations that reassign it.  Every mutator ends by writing the
 * list to the key-value store, kept here as the ghost snapshot `saved`.
 */
module TasksModel {
  import opened Wrappers
  import opened Tasks

  class TaskStore {
    /** `_tasks`: the single ordered list of tasks. */
    var tasks: seq<Task>
    /** The value under the "tasks" key of the key-value store (None: never written). */
    ghost var saved: Option<seq<Task>>

    /** Task ids are unique for the lifetime of the list. */
    ghost predicate Valid()
      reads this
    {
      UniqueIds(tasks)
    }

    /** Initialisation from the stored list; an absent entry gives the empty list. */
    constructor (stored: Option<seq<Task>>)
      requires stored.Some? ==> UniqueIds(stored.value)
      ensures Valid()
      ensures tasks == (if stored.Some? then stored.value else [])
      ensures saved == stored
    {
      tasks := if stored.Some? then stored.value else [];
      saved := stored;
    }

    /** `saveTasks`: overwrite the stored list with the current one. */
    method SaveTasks()
      modifies this`saved
      ensures saved == Some(tasks)
    {
      saved := Some(tasks);
    }

    /** `sortTasks`: active, then completed, then deleted, each in prior order. */
    method SortTasks()
      requires Valid()
      modifies this`tasks
      ensures Valid()
      ensures tasks == Sort(old(tasks))
      ensures Canonical(tasks) && multiset(tasks) == multiset(old(tasks))
    {
      SortCanonical(tasks);
      SortPermutation(tasks);
      SortUniqueIds(tasks);
      var deletedTasks := Filter(tasks, IsDeleted);
      var completedTasks := Filter(tasks, IsCompleted);
      var activeTasks := Filter(tasks, IsActive);
      tasks := activeTasks + completedTasks + deletedTasks;
    }

    /** `replaceTasks`: take the new list, sort it, save it. */
    method ReplaceTasks(newTaskArray: seq<Task>)
      requires UniqueIds(newTaskArray)
      modifies this
      ensures Valid() && saved == Some(tasks)
      ensures tasks == Sort(newTaskArray)
      ensures Canonical(tasks) && multiset(tasks) == multiset(newTaskArray)
    {
      tasks := newTaskArray;
      SortTasks();
      SaveTasks();
    }

    /**
     * `addTask`: push at the end for "bottom", unshift at the front for any
     * other position, then sort and save.  The task ends up last ("bottom")
     * or first (otherwise) of its partition; the other partitions keep their
     * order.
     */
    method AddTask(task: Task, position: string)
      requires Valid() && task.id !in Ids(tasks)
      modifies this
      ensures Valid() && saved == Some(tasks)
      ensures tasks == Sort(if position == "bottom" then old(tasks) + [task] else [task] + old(tasks))
      ensures Canonical(tasks)
      ensures forall g :: Filter(tasks, Is(g)) ==
                          (if g != GroupOf(task) then Filter(old(tasks), Is(g))
                           else if position == "bottom" then Filter(old(tasks), Is(g)) + [task]
                           else [task] + Filter(old(tasks), Is(g)))
      ensures forall id :: id in Ids(tasks) <==> id == task.id || id in Ids(old(tasks))
    {
      UniqueIdsAdd(tasks, task);
      ghost var before := tasks;
      if position == "bottom" {
        tasks := tasks + [task];
      } else {
        tasks := [task] + tasks;
      }
      SortTasks();
      SaveTasks();
      forall id ensures id in Ids(tasks) <==> id == task.id || id in Ids(before) {
        IdsSort(if position == "bottom" then before + [task] else [task] + before, id);
        IdsAdd(task, before, id);
      }
      forall g: Group
        ensures Filter(tasks, Is(g)) ==
          if g != GroupOf(task) then Filter(before, Is(g))
          else if position == "bottom" then Filter(before, Is(g)) + [task]
          else [task] + Filter(before, Is(g))
      {
        SortAddTop(task, before, g);
        SortAddBottom(task, before, g);
      }
    }

    /**
     * `deleteTask`: set `deleted` (leaving `completed` as it is), take the
     * task out and add it back at the top, so it leads the deleted partition.
     */
    method DeleteTask(task: Task)
      requires Valid()
      modifies this
      ensures Valid() && saved == Some(tasks)
      ensures tasks == Sort([task.(deleted := true)] + Without(old(tasks), [task.id]))
      ensures Filter(tasks, IsDeleted)
        == [task.(deleted := true)] + Filter(Without(old(tasks), [task.id]), IsDeleted)
      ensures Filter(tasks, IsActive) == Filter(Without(old(tasks), [task.id]), IsActive)
      ensures Filter(tasks, IsCompleted) == Filter(Without(old(tasks), [task.id]), IsCompleted)
      ensures forall id :: id in Ids(tasks) <==> id == task.id || id in Ids(old(tasks))
    {
      var t := task.(deleted := true);
      ghost var before := tasks;
      var position := "top";
      WithoutUniqueIds(tasks, [task.id]);
      WithoutIds(tasks, [task.id], task.id);
      tasks := Without(tasks, [task.id]);
      ghost var rest := tasks;
      AddTask(t, position);
      forall id ensures id in Ids(tasks) <==> id == task.id || id in Ids(before) {
        IdsReinsert(t, before, id);
      }
      assert Filter(tasks, Is(Deleted)) == [t] + Filter(rest, Is(Deleted));
      assert Filter(tasks, Is(Active)) == Filter(rest, Is(Active));
      assert Filter(tasks, Is(Completed)) == Filter(rest, Is(Completed));
      SaveTasks();
    }

    /**
     * `restoreTask`: clear `deleted`, take the task out and add it back at the
     * top, so it leads the active or the completed partition.
     */
    method RestoreTask(task: Task)
      requires Valid()
      modifies this
      ensures Valid() && saved == Some(tasks)
      ensures tasks == Sort([task.(deleted := false)] + Without(old(tasks), [task.id]))
      ensures var g := if task.completed then Completed else Active;
        Filter(tasks, Is(g)) == [task.(deleted := false)] + Filter(Without(old(tasks), [task.id]), Is(g))
      ensures Filter(tasks, IsDeleted) == Filter(Without(old(tasks), [task.id]), IsDeleted)
      ensures forall id :: id in Ids(tasks) <==> id == task.id || id in Ids(old(tasks))
    {
      var t := task.(deleted := false);
      ghost var before := tasks;
      var position := "top";
      WithoutUniqueIds(tasks, [task.id]);
      WithoutIds(tasks, [task.id], task.id);
      tasks := Without(tasks, [task.id]);
      ghost var rest := tasks;
      AddTask(t, position);
      forall id ensures id in Ids(tasks) <==> id == task.id || id in Ids(before) {
        IdsReinsert(t, before, id);
      }
      assert Filter(tasks, Is(Deleted)) == Filter(rest, Is(Deleted));
      SaveTasks();
    }

    /**
     * `permanentlyDeleteTask`: drop every task with that id and save;
     * `WithoutOne` states what that leaves.
     */
    method PermanentlyDeleteTask(task: Task)
      requires Valid()
      modifies this
      ensures Valid() && saved == Some(tasks)
      ensures tasks == Without(old(tasks), [task.id])
    {
      WithoutUniqueIds(tasks, [task.id]);
      tasks := Without(tasks, [task.id]);
      SaveTasks();
    }

    /**
     * `permanentlyDeleteAllDeletedTasks`: one `permanentlyDeleteTask` per
     * deleted task; the non-deleted tasks stay in order.  With no deleted
     * task nothing is written.
     */
    method PermanentlyDeleteAllDeletedTasks()
      requires Valid()
      modifies this
      ensures Valid()
      ensures tasks == Filter(old(tasks), IsNotDeleted)
      ensures forall x :: x in tasks ==> !x.deleted
      ensures Filter(old(tasks), IsDeleted) == [] ==> saved == old(saved)
      ensures Filter(old(tasks), IsDeleted) != [] ==> saved == Some(tasks)
    {
      var deletedTasks := Filter(tasks, IsDeleted);
      ghost var original := tasks;
      PermanentlyDeleteEach(deletedTasks);
      PurgedAll(original);
    }

    /** The loop of `permanentlyDeleteAllDeletedTasks`: each task of `ds` in turn. */
    method PermanentlyDeleteEach(ds: seq<Task>)
      requires Valid()
      modifies this
      ensures Valid()
      ensures tasks == Without(old(tasks), Ids(ds))
      ensures ds == [] ==> saved == old(saved)
      ensures ds != [] ==> saved == Some(tasks)
    {
      ghost var original := tasks;
      assert Ids(ds[..0]) == [];
      WithoutAbsent(original, []);
      var i := 0;
      while i < |ds|
        invariant 0 <= i <= |ds|
        invariant Valid()
        invariant tasks == Without(original, Ids(ds[..i]))
        invariant i == 0 ==> saved == old(saved)
        invariant 0 < i ==> saved == Some(tasks)
      {
        PermanentlyDeleteTask(ds[i]);
        WithoutPrefixStep(original, ds, i);
        i := i + 1;
      }
      assert ds[..i] == ds;
    }

    /**
     * `toggleCompleted`: flip `completed`, take the task out, add it back at
     * the top (so it leads its new partition), sort and save.
     */
    method ToggleCompleted(task: Task)
      requires Valid()
      modifies this
      ensures Valid() && saved == Some(tasks)
      ensures tasks == Sort([task.(completed := !task.completed)] + Without(old(tasks), [task.id]))
      ensures var t := task.(completed := !task.completed);
        Filter(tasks, Is(GroupOf(t))) == [t] + Filter(Without(old(tasks), [task.id]), Is(GroupOf(t)))
      ensures forall id :: id in Ids(tasks) <==> id == task.id || id in Ids(old(tasks))
    {
      var t := task.(completed := !task.completed);
      ghost var before := tasks;
      WithoutUniqueIds(tasks, [task.id]);
      WithoutIds(tasks, [task.id], task.id);
      tasks := Without(tasks, [task.id]);
      ghost var rest := tasks;
      AddTask(t, "top");
      assert Filter(tasks, Is(GroupOf(t))) == [t] + Filter(rest, Is(GroupOf(t)));
      SortIdempotent([t] + rest);
      SortTasks();
      forall id ensures id in Ids(tasks) <==> id == task.id || id in Ids(before) {
        IdsReinsert(t, before, id);
      }
      SaveTasks();
    }

    /**
     * `toggleFlagged`: flip `flagged` of the task in place; the order is not
     * touched and stays canonical if it was.
     */
    method ToggleFlagged(task: Task)
      requires Valid() && task in tasks
      modifies this
      ensures Valid() && saved == Some(tasks)
      ensures var k := FindIndex(old(tasks), task.id);
        0 <= k && tasks == old(tasks)[k := task.(flagged := !task.flagged)]
      ensures Ids(tasks) == Ids(old(tasks))
      ensures Canonical(old(tasks)) ==> Canonical(tasks)
    {
      IdInIds(tasks, task);
      var k := FindIndex(tasks, task.id);
      SameIdSameTask(tasks, tasks[k], task);
      FlagKeepsOrder(tasks, k, !tasks[k].flagged);
      tasks := tasks[k := tasks[k].(flagged := !tasks[k].flagged)];
      SaveTasks();
    }
  }
}
