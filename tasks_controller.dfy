/**
 * The selection controller of src/js/tasks-controller.js: the `_selectedTask`
 * reference and the policy the handlers apply to it and to the task store.
 *
 * The selected task is held by id.  Every task the controller is handed comes
 * from the store's list, so the source's reference comparisons
 * (`_selectedTask === task`) are id comparisons here.  The task menu that
 * `window.electronAPI.enableTaskMenu` / `disableTaskMenu` switch is the ghost
 * flag `menuEnabled`.  Rendering, focus and the details pane are not state here.
 */
module TasksController {
  import opened Wrappers
  import opened Tasks
  import opened TasksModel
  import opened SettingsModel
  import opened DropOrder

  /* ---------------------------------------------------------------------- */
  /* getNextTaskToHighlight (tasks-controller.js:297-330)                    */
  /* ---------------------------------------------------------------------- */

  /** Whether two tasks agree on both partition flags. */
  predicate SameFlags(a: Task, b: Task) {
    a.completed == b.completed && a.deleted == b.deleted
  }

  /**
   * The task to select once `task` is gone, chosen from the complete list
   * `taskArray` (not the filtered view): none when it is alone; the second
   * when it is first; the second-to-last when it is last; otherwise the next
   * one when that one has the same flags, else the previous one.
   */
  function NextTaskToHighlight(taskArray: seq<Task>, task: Task): (r: Option<Task>)
    requires task.id in Ids(taskArray)
    ensures r.None? <==> |taskArray| == 1
    ensures var k := FindIndex(taskArray, task.id);
      r.Some? ==> ((0 < k && r.value == taskArray[k - 1])
                || (k + 1 < |taskArray| && r.value == taskArray[k + 1]))
    ensures var k := FindIndex(taskArray, task.id);
      r.Some? && 0 < k && k + 1 < |taskArray| ==>
        (r.value == taskArray[k + 1] <==> SameFlags(taskArray[k + 1], task) || taskArray[k - 1] == taskArray[k + 1])
  {
    var indexOfTask := FindIndex(taskArray, task.id);
    if |taskArray| == 1 then None
    else if indexOfTask == 0 then Some(taskArray[1])
    else if indexOfTask == |taskArray| - 1 then Some(taskArray[|taskArray| - 2])
    else
      var previousTask := taskArray[indexOfTask - 1];
      var nextTask := taskArray[indexOfTask + 1];
      if SameFlags(nextTask, task) then Some(nextTask) else Some(previousTask)
  }

  /** With unique ids the replacement is never the task itself, and it is a task of the list. */
  lemma HighlightIsAnother(taskArray: seq<Task>, task: Task)
    requires UniqueIds(taskArray) && task.id in Ids(taskArray)
    ensures var r := NextTaskToHighlight(taskArray, task);
      r.Some? ==> r.value in taskArray && r.value.id != task.id
  {
    var k := FindIndex(taskArray, task.id);
    if 0 < k {
      assert taskArray[k - 1].id != taskArray[k].id;
    }
    if k + 1 < |taskArray| {
      assert taskArray[k + 1].id != taskArray[k].id;
    }
  }

  /**
   * Because the full list is searched, the replacement can be a task the view
   * hides: deleting the only active task while completed tasks are hidden
   * highlights a completed task.
   */
  lemma HighlightMayBeHidden()
    ensures var a := Task("a", "first", false, false, false, None);
      var c := Task("c", "done", true, false, false, None);
      && GetAllTasks([a, c]) == [a, c]
      && Ids([a, c])[0] == a.id
      && NextTaskToHighlight(GetAllTasks([a, c]), a) == Some(c)
      && !Visible(c, false, false)
  {
    var a := Task("a", "first", false, false, false, None);
    var c := Task("c", "done", true, false, false, None);
    assert Filter([c], IsActive) == [];
    assert Filter([a, c], IsActive) == [a];
    assert Filter([c], IsCompleted) == [c];
    assert Filter([a, c], IsCompleted) == [c];
    assert Filter([c], IsDeleted) == [];
    assert Filter([a, c], IsDeleted) == [];
    assert GetAllTasks([a, c]) == [a, c];
    assert Ids([a, c]) == ["a", "c"];
  }

  /**
   * Two active tasks and a completed one: deleting the middle one highlights
   * the previous task, since the next one is in another partition.
   */
  lemma HighlightFallsBack()
    ensures var a := Task("a", "one", false, false, false, None);
      var b := Task("b", "two", false, false, false, None);
      var c := Task("c", "three", true, false, false, None);
      && Ids([a, b, c])[1] == b.id
      && NextTaskToHighlight([a, b, c], b) == Some(a)
  {
    var a := Task("a", "one", false, false, false, None);
    var b := Task("b", "two", false, false, false, None);
    var c := Task("c", "three", true, false, false, None);
    assert Ids([a, b, c]) == ["a", "b", "c"];
  }

  /* ---------------------------------------------------------------------- */
  /* Drop containers (tasks-controller.js:670-676, 733-747)                  */
  /* ---------------------------------------------------------------------- */

  datatype Container = ActiveContainer | CompletedContainer | DeletedContainer

  /** `renderTasks` routing: deleted, else completed, else active. */
  function ContainerOf(t: Task): (c: Container)
    ensures c == ActiveContainer <==> GroupOf(t) == Active
    ensures c == CompletedContainer <==> GroupOf(t) == Completed
    ensures c == DeletedContainer <==> GroupOf(t) == Deleted
  {
    if t.deleted then DeletedContainer
    else if t.completed then CompletedContainer
    else ActiveContainer
  }

  /**
   * The flags a drop sets on the dragged task: the active container clears
   * both, the completed container sets `completed` and clears `deleted`, the
   * deleted container sets `deleted` only.
   */
  function Dropped(t: Task, container: Container): (r: Task)
    ensures r.id == t.id && r.title == t.title && r.flagged == t.flagged && r.notes == t.notes
    ensures container == DeletedContainer ==> r.deleted && r.completed == t.completed
    ensures container != DeletedContainer ==> !r.deleted && (r.completed <==> container == CompletedContainer)
  {
    match container
    case ActiveContainer => t.(completed := false, deleted := false)
    case CompletedContainer => t.(completed := true, deleted := false)
    case DeletedContainer => t.(deleted := true)
  }

  /** A dropped task is rendered in the container it was dropped on. */
  lemma DroppedRendersThere(t: Task, container: Container)
    ensures ContainerOf(Dropped(t, container)) == container
  {
  }

  /* ---------------------------------------------------------------------- */
  /* Blank input (tasks-controller.js:29)                                    */
  /* ---------------------------------------------------------------------- */

  /** The characters `String.prototype.trim` removes: white space and line terminators. */
  predicate IsTrimmable(c: char) {
    || c == '\t' || c == '\n' || c == '\U{000B}' || c == '\U{000C}' || c == '\r'
    || c == ' ' || c == '\U{00A0}' || c == '\U{1680}'
    || ('\U{2000}' <= c <= '\U{200A}')
    || c == '\U{2028}' || c == '\U{2029}' || c == '\U{202F}' || c == '\U{205F}'
    || c == '\U{3000}' || c == '\U{FEFF}'
  }

  /** `s` without its leading trimmable characters. */
  function TrimStart(s: string): (r: string)
    ensures |r| <= |s| && r == s[|s| - |r|..]
    ensures forall i :: 0 <= i < |s| - |r| ==> IsTrimmable(s[i])
    ensures r != [] ==> !IsTrimmable(r[0])
    decreases |s|
  {
    if s != [] && IsTrimmable(s[0]) then TrimStart(s[1..]) else s
  }

  /** `s` without its trailing trimmable characters. */
  function TrimEnd(s: string): (r: string)
    ensures |r| <= |s| && r == s[..|r|]
    ensures forall i :: |r| <= i < |s| ==> IsTrimmable(s[i])
    ensures r != [] ==> !IsTrimmable(r[|r| - 1])
    decreases |s|
  {
    if s != [] && IsTrimmable(s[|s| - 1]) then TrimEnd(s[..|s| - 1]) else s
  }

  /**
   * `String.prototype.trim`: the part of `s` left between a leading and a
   * trailing run of trimmable characters (the leading run is the one
   * `TrimStart` removes), beginning and ending with a character that is
   * not.  It is empty exactly when every character is trimmable.
   */
  function Trim(s: string): (r: string)
    ensures |r| <= |s|
    ensures r == [] <==> forall i :: 0 <= i < |s| ==> IsTrimmable(s[i])
    ensures r != [] ==> !IsTrimmable(r[0]) && !IsTrimmable(r[|r| - 1])
    ensures |s| - |TrimStart(s)| + |r| <= |s|
    ensures forall i :: 0 <= i < |r| ==> r[i] == s[|s| - |TrimStart(s)| + i]
    ensures forall i :: 0 <= i < |s| - |TrimStart(s)| ==> IsTrimmable(s[i])
    ensures forall i :: |s| - |TrimStart(s)| + |r| <= i < |s| ==> IsTrimmable(s[i])
  {
    TrimEnd(TrimStart(s))
  }

  /** The record the Enter handler creates. */
  function NewTask(id: Id, title: string): (t: Task)
    ensures t.id == id && t.title == title
    ensures IsActive(t) && !t.flagged && t.notes.None?
  {
    Task(id, title, false, false, false, None)
  }

  /**
   * What a drop does to the list: with `s1` the list with the dragged task's
   * new flags, `r == Sort(SortByKey(order, Sort(s1)))` has the same tasks as
   * `s1`, unique ids, canonical order and every partition ordered by
   * `order`, and it holds the dragged task with its new flags.
   */
  lemma DropReorders(s: seq<Task>, k: nat, container: Container, order: seq<Id>, r: seq<Task>)
    requires UniqueIds(s) && k < |s|
    requires r == Sort(SortByKey(order, Sort(s[k := Dropped(s[k], container)])))
    ensures UniqueIds(SortByKey(order, Sort(s[k := Dropped(s[k], container)])))
    ensures UniqueIds(r)
    ensures multiset(r) == multiset(s[k := Dropped(s[k], container)])
    ensures Canonical(r)
    ensures forall g :: SortedByKey(order, Filter(r, Is(g)))
    ensures s[k].id in Ids(r)
    ensures Lookup(r, s[k].id) == Dropped(s[k], container)
    ensures ContainerOf(Lookup(r, s[k].id)) == container
  {
    var s1 := s[k := Dropped(s[k], container)];
    assert UniqueIds(s1) by {
      forall i, j | 0 <= i < |s1| && 0 <= j < |s1| && i != j ensures s1[i].id != s1[j].id {
        assert s1[i].id == s[i].id && s1[j].id == s[j].id;
      }
    }
    SortUniqueIds(s1);
    SortPermutation(s1);
    var sorted := SortByKey(order, Sort(s1));
    SortByKeyUniqueIds(order, Sort(s1));
    SortByKeySorted(order, Sort(s1));
    SortPermutation(sorted);
    SortCanonical(sorted);
    forall g ensures SortedByKey(order, Filter(r, Is(g))) {
      SortStable(sorted, g);
      FilterSortedByKey(order, sorted, Is(g));
    }
    assert s1[k] in s1;
    InSort(s1);
    InSort(sorted);
    SortUniqueIds(sorted);
    IdInIds(r, s1[k]);
    SameIdSameTask(r, Lookup(r, s[k].id), s1[k]);
    DroppedRendersThere(s[k], container);
  }

  /* ---------------------------------------------------------------------- */
  /* The controller                                                          */
  /* ---------------------------------------------------------------------- */

  class Controller {
    const store: TaskStore
    const settings: Settings
    /** `_selectedTask`, by id. */
    var selected: Option<Id>
    /** Whether the task menu is enabled; the menu stands for "a task is selected". */
    ghost var menuEnabled: bool

    /** The store and the settings are each consistent. */
    ghost predicate Consistent()
      reads this, store, settings
    {
      store.Valid() && settings.Valid()
    }

    /** The selection is a task of the store. */
    ghost predicate SelectionInStore()
      reads this, store
    {
      selected.Some? ==> selected.value in Ids(store.tasks)
    }

    /** The task menu is enabled exactly while a task is selected. */
    ghost predicate MenuTracksSelection()
      reads this
    {
      menuEnabled <==> selected.Some?
    }

    ghost predicate Valid()
      reads this, store, settings
    {
      Consistent() && SelectionInStore() && MenuTracksSelection()
    }

    /** The tasks the list shows under the current settings. */
    function View(): (r: seq<Task>)
      reads store, settings
      ensures forall x :: x in r <==> x in store.tasks && Visible(x, settings.showingCompleted, settings.showingDeleted)
    {
      GetTasks(store.tasks, settings.showingCompleted, settings.showingDeleted)
    }

    /** Page start: nothing selected, the task menu disabled. */
    constructor (store: TaskStore, settings: Settings)
      ensures this.store == store && this.settings == settings
      ensures selected.None? && !menuEnabled
    {
      this.store := store;
      this.settings := settings;
      selected := None;
      menuEnabled := false;
    }

    /* -------------------------------------------------------------------- */
    /* selectTask / deselectTask (tasks-controller.js:151-213)              */
    /* -------------------------------------------------------------------- */

    /**
     * `deselectTask`: with null it only hides the details pane; with a task
     * it clears the selection, whichever task was selected, and disables the
     * task menu.
     */
    method DeselectTask(task: Option<Id>)
      modifies this
      ensures task.None? ==> selected == old(selected) && menuEnabled == old(menuEnabled)
      ensures task.Some? ==> selected.None? && !menuEnabled
    {
      if task.None? {
        return;
      }
      selected := None;
      menuEnabled := false;
    }

    /**
     * `selectTask`: null deselects the current selection (and so leaves the
     * menu alone when there is none); a task, which must be rendered, becomes
     * the selection and enables the task menu.
     */
    method SelectTask(task: Option<Id>)
      requires task.Some? ==> task.value in Ids(store.tasks)
      modifies this
      ensures task.None? ==> selected.None? && menuEnabled == (old(selected).None? && old(menuEnabled))
      ensures task.Some? ==> selected == task && menuEnabled
      ensures SelectionInStore()
      ensures old(MenuTracksSelection()) ==> MenuTracksSelection()
    {
      if task.None? {
        DeselectTask(selected);
        return;
      } else if task != selected {
        DeselectTask(selected);
      }
      selected := task;
      menuEnabled := true;
    }

    /** The task `selected` names, as `_selectedTask` holds it. */
    function SelectedTask(): (t: Option<Task>)
      requires SelectionInStore()
      reads this, store
      ensures t.Some? <==> selected.Some?
      ensures t.Some? ==> t.value in store.tasks && t.value.id == selected.value
    {
      if selected.None? then None else Some(Lookup(store.tasks, selected.value))
    }

    /* -------------------------------------------------------------------- */
    /* selectNextTask / selectPreviousTask (tasks-controller.js:287-295)    */
    /* -------------------------------------------------------------------- */

    /** `selectPreviousTask`: select the saturating previous neighbour in the view. */
    method SelectPreviousTask()
      requires Consistent() && SelectionInStore()
      requires selected.Some? ==> selected.value in Ids(View())
      modifies this
      ensures old(selected).None? ==> selected.None? && menuEnabled == old(menuEnabled)
      ensures old(selected).Some? ==>
        var view := old(View());
        var k := FindIndex(view, old(selected).value);
        0 <= k && selected == Some(view[if k == 0 then 0 else k - 1].id) && menuEnabled
      ensures SelectionInStore()
      ensures old(MenuTracksSelection()) ==> MenuTracksSelection()
    {
      var task := SelectedTask();
      var previousTask := GetPreviousTask(store.tasks, task, settings.showingCompleted, settings.showingDeleted);
      if task.None? {
        SelectTask(None);
      } else {
        PreviousOfTask(store.tasks, settings.showingCompleted, settings.showingDeleted, task.value);
        SelectTask(Some(previousTask.value.id));
      }
    }

    /** `selectNextTask`: select the saturating next neighbour in the view. */
    method SelectNextTask()
      requires Consistent() && SelectionInStore()
      requires selected.Some? ==> selected.value in Ids(View())
      modifies this
      ensures old(selected).None? ==> selected.None? && menuEnabled == old(menuEnabled)
      ensures old(selected).Some? ==>
        var view := old(View());
        var k := FindIndex(view, old(selected).value);
        0 <= k && selected == Some(view[if k == |view| - 1 then k else k + 1].id) && menuEnabled
      ensures SelectionInStore()
      ensures old(MenuTracksSelection()) ==> MenuTracksSelection()
    {
      var task := SelectedTask();
      var nextTask := GetNextTask(store.tasks, task, settings.showingCompleted, settings.showingDeleted);
      if task.None? {
        SelectTask(None);
      } else {
        NextOfTask(store.tasks, settings.showingCompleted, settings.showingDeleted, task.value);
        SelectTask(Some(nextTask.value.id));
      }
    }

    /* -------------------------------------------------------------------- */
    /* toggleShowCompleted / toggleShowDeleted (tasks-controller.js:215-252) */
    /* -------------------------------------------------------------------- */

    /**
     * `toggleShowCompleted(task)`: flip the setting; when completed tasks are
     * now hidden and the task (the argument, else the selection) has
     * `completed` set, deleted or not, the selection is cleared; otherwise
     * that task is selected.
     */
    method ToggleShowCompleted(task: Option<Id>)
      requires Consistent() && SelectionInStore()
      requires task.Some? ==> task.value in Ids(store.tasks)
      modifies this, settings
      ensures Consistent() && SelectionInStore()
      ensures settings.showingCompleted == !old(settings.showingCompleted)
      ensures settings.showingDeleted == old(settings.showingDeleted)
      ensures settings.stored == old(settings.stored)[ShowCompletedKey := settings.showingCompleted]
      ensures var t := if task.None? then old(selected) else task;
        var hidden := !settings.showingCompleted && t.Some? && Lookup(store.tasks, t.value).completed;
        selected == if hidden then None else t
      ensures menuEnabled == (selected.Some? || (old(selected).None? && old(menuEnabled)))
      ensures old(MenuTracksSelection()) ==> MenuTracksSelection()
    {
      var t := task;
      if t.None? {
        t := selected;
      }
      settings.ToggleShowCompleted();
      if !settings.showingCompleted && t.Some? && Lookup(store.tasks, t.value).completed {
        t := None;
      }
      SelectTask(t);
    }

    /** `toggleShowDeleted(task)`: the same policy with the `deleted` flag. */
    method ToggleShowDeleted(task: Option<Id>)
      requires Consistent() && SelectionInStore()
      requires task.Some? ==> task.value in Ids(store.tasks)
      modifies this, settings
      ensures Consistent() && SelectionInStore()
      ensures settings.showingDeleted == !old(settings.showingDeleted)
      ensures settings.showingCompleted == old(settings.showingCompleted)
      ensures settings.stored == old(settings.stored)[ShowDeletedKey := settings.showingDeleted]
      ensures var t := if task.None? then old(selected) else task;
        var hidden := !settings.showingDeleted && t.Some? && Lookup(store.tasks, t.value).deleted;
        selected == if hidden then None else t
      ensures menuEnabled == (selected.Some? || (old(selected).None? && old(menuEnabled)))
      ensures old(MenuTracksSelection()) ==> MenuTracksSelection()
    {
      var t := task;
      if t.None? {
        t := selected;
      }
      settings.ToggleShowDeleted();
      if !settings.showingDeleted && t.Some? && Lookup(store.tasks, t.value).deleted {
        t := None;
      }
      SelectTask(t);
    }

    /* -------------------------------------------------------------------- */
    /* toggleFlag / toggleCompleted (tasks-controller.js:254-285)           */
    /* -------------------------------------------------------------------- */

    /**
     * `toggleFlag`: nothing for a deleted or completed task; otherwise flip
     * its `flagged` flag in place and reselect the current selection.
     */
    method ToggleFlag(task: Id)
      requires Consistent() && SelectionInStore() && task in Ids(store.tasks)
      modifies this, store
      ensures Consistent() && SelectionInStore()
      ensures selected == old(selected)
      ensures var s := old(store.tasks); var t := Lookup(s, task);
        if t.deleted || t.completed then
          store.tasks == s && store.saved == old(store.saved) && menuEnabled == old(menuEnabled)
        else
          && store.tasks == s[FindIndex(s, task) := t.(flagged := !t.flagged)]
          && store.saved == Some(store.tasks)
          && menuEnabled == (old(menuEnabled) || old(selected).Some?)
      ensures old(MenuTracksSelection()) ==> MenuTracksSelection()
    {
      var t := Lookup(store.tasks, task);
      if t.deleted || t.completed {
        return;
      }
      store.ToggleFlagged(t);
      SelectTask(selected);
    }

    /**
     * `toggleCompleted`: nothing for a deleted task; otherwise move it to the
     * front of its new partition.  The selection is never changed: the branch
     * for a selected task hidden by the toggle computes a replacement and
     * discards it.
     */
    method ToggleCompleted(task: Id)
      requires Consistent() && SelectionInStore() && task in Ids(store.tasks)
      modifies this, store
      ensures Consistent() && SelectionInStore()
      ensures selected == old(selected)
      ensures var s := old(store.tasks); var t := Lookup(s, task);
        if t.deleted then
          store.tasks == s && store.saved == old(store.saved) && menuEnabled == old(menuEnabled)
        else
          && store.tasks == Sort([t.(completed := !t.completed)] + Without(s, [task]))
          && store.saved == Some(store.tasks)
          && menuEnabled == (old(menuEnabled) || (old(selected).Some? &&
                              (old(selected) != Some(task) || settings.showingCompleted)))
      ensures old(MenuTracksSelection()) ==> MenuTracksSelection()
    {
      var t := Lookup(store.tasks, task);
      if t.deleted {
        return;
      }
      ghost var before := store.tasks;
      store.ToggleCompleted(t);
      IdInIds(before, t);
      if selected == Some(task) && settings.showingCompleted {
        SelectTask(Some(task));
      } else if selected == Some(task) && !settings.showingCompleted {
        // getNextTaskToHighlight(task) is evaluated and its result is dropped
      } else if selected != Some(task) {
        SelectTask(selected);
      } else {
        assert false;
      }
    }

    /* -------------------------------------------------------------------- */
    /* deleteTaskAndHighlightNextTask (tasks-controller.js:332-362)         */
    /* -------------------------------------------------------------------- */

    /** The selection `deleteTaskAndHighlightNextTask` moves to when `task` is the selected one. */
    function Replacement(task: Id): (r: Option<Id>)
      requires store.Valid() && task in Ids(store.tasks)
      reads this, store
      ensures r.Some? ==> r.value in Ids(store.tasks) && r.value != task
    {
      var taskArray := GetAllTasks(store.tasks);
      var t := Lookup(store.tasks, task);
      IdsSort(store.tasks, task);
      SortUniqueIds(store.tasks);
      HighlightIsAnother(taskArray, t);
      InSort(store.tasks);
      var n := NextTaskToHighlight(taskArray, t);
      if n.None? then None
      else
        IdInIds(store.tasks, n.value);
        Some(n.value.id)
    }

    /**
     * `deleteTaskAndHighlightNextTask` as written.  An already-deleted task
     * is removed for good once `confirmed`; any other task is soft-deleted.
     * When the task is the selected one, `_selectedTask` is set to the
     * replacement, or to null when there is none, and then `selectTask` is
     * applied to it; `selectTask(null)` with nothing selected leaves the task
     * menu as it was.
     */
    method DeleteTaskAndHighlightNextTask(task: Id, confirmed: bool)
      requires Consistent() && SelectionInStore() && task in Ids(store.tasks)
      modifies this, store
      ensures Consistent() && SelectionInStore()
      ensures var t := Lookup(old(store.tasks), task);
        if t.deleted && !confirmed then
          && store.tasks == old(store.tasks) && store.saved == old(store.saved)
          && selected == old(selected) && menuEnabled == old(menuEnabled)
        else
          && (t.deleted ==> store.tasks == Without(old(store.tasks), [task]))
          && (!t.deleted ==> store.tasks == Sort([t.(deleted := true)] + Without(old(store.tasks), [task])))
          && store.saved == Some(store.tasks)
          && selected == (if old(selected) == Some(task) then old(Replacement(task)) else old(selected))
          && menuEnabled == (selected.Some? || old(menuEnabled))
    {
      var t := Lookup(store.tasks, task);
      if t.deleted && !confirmed {
        return;
      }
      ghost var before := store.tasks;
      if selected == Some(task) {
        selected := Replacement(task);
      }
      ghost var chosen := selected;
      if t.deleted {
        store.PermanentlyDeleteTask(t);
        WithoutOne(before, task);
      } else {
        IdInIds(before, t);
        store.DeleteTask(t);
      }
      assert chosen.Some? ==> chosen.value in Ids(before) && chosen.value != task;
      SelectTask(selected);
    }

    /**
     * The same handler with the task menu kept in step with the selection:
     * when there is no replacement the old selection is deselected, which
     * disables the menu.
     */
    method DeleteTaskAndHighlightNextTaskCorrected(task: Id, confirmed: bool)
      requires Valid() && task in Ids(store.tasks)
      modifies this, store
      ensures Valid()
      ensures var t := Lookup(old(store.tasks), task);
        if t.deleted && !confirmed then
          && store.tasks == old(store.tasks) && store.saved == old(store.saved)
          && selected == old(selected)
        else
          && (t.deleted ==> store.tasks == Without(old(store.tasks), [task]))
          && (!t.deleted ==> store.tasks == Sort([t.(deleted := true)] + Without(old(store.tasks), [task])))
          && store.saved == Some(store.tasks)
          && selected == (if old(selected) == Some(task) then old(Replacement(task)) else old(selected))
    {
      var t := Lookup(store.tasks, task);
      if t.deleted && !confirmed {
        return;
      }
      ghost var before := store.tasks;
      var next := selected;
      if selected == Some(task) {
        next := Replacement(task);
        if next.None? {
          DeselectTask(selected);
        }
      }
      selected := next;
      if t.deleted {
        store.PermanentlyDeleteTask(t);
        WithoutOne(before, task);
      } else {
        IdInIds(before, t);
        store.DeleteTask(t);
      }
      SelectTask(selected);
    }

    /** `restoreTask`: the store moves the task back; the selection stays. */
    method RestoreTask(task: Id)
      requires Consistent() && SelectionInStore() && task in Ids(store.tasks)
      modifies store
      ensures Consistent() && SelectionInStore()
      ensures var t := Lookup(old(store.tasks), task);
        store.tasks == Sort([t.(deleted := false)] + Without(old(store.tasks), [task]))
      ensures store.saved == Some(store.tasks)
    {
      var t := Lookup(store.tasks, task);
      IdInIds(store.tasks, t);
      store.RestoreTask(t);
    }

    /* -------------------------------------------------------------------- */
    /* The purge handler (tasks-controller.js:138-145)                      */
    /* -------------------------------------------------------------------- */

    /**
     * The purge handler as written: once confirmed, every deleted task is
     * removed; the selection is not looked at.
     */
    method PurgeDeletedTasks(confirmed: bool)
      requires Consistent()
      modifies store
      ensures Consistent()
      ensures !confirmed ==> store.tasks == old(store.tasks) && store.saved == old(store.saved)
      ensures confirmed ==> store.tasks == Filter(old(store.tasks), IsNotDeleted)
      ensures confirmed && Filter(old(store.tasks), IsDeleted) == [] ==> store.saved == old(store.saved)
      ensures confirmed && Filter(old(store.tasks), IsDeleted) != [] ==> store.saved == Some(store.tasks)
    {
      if !confirmed {
        return;
      }
      store.PermanentlyDeleteAllDeletedTasks();
    }

    /** The purge handler with a purged selection deselected. */
    method PurgeDeletedTasksCorrected(confirmed: bool)
      requires Valid()
      modifies this, store
      ensures Valid()
      ensures !confirmed ==> store.tasks == old(store.tasks) && store.saved == old(store.saved)
      ensures confirmed ==> store.tasks == Filter(old(store.tasks), IsNotDeleted)
      ensures confirmed && Filter(old(store.tasks), IsDeleted) == [] ==> store.saved == old(store.saved)
      ensures confirmed && Filter(old(store.tasks), IsDeleted) != [] ==> store.saved == Some(store.tasks)
      ensures selected == if old(selected).Some? && old(selected).value !in Ids(store.tasks)
                          then None else old(selected)
    {
      if !confirmed {
        return;
      }
      store.PermanentlyDeleteAllDeletedTasks();
      if selected.Some? && selected.value !in Ids(store.tasks) {
        DeselectTask(selected);
      }
    }

    /* -------------------------------------------------------------------- */
    /* The add-task input box (tasks-controller.js:28-58)                    */
    /* -------------------------------------------------------------------- */

    /**
     * The input box's keypress handler.  Enter with input that does not trim
     * to empty adds a new task with the untrimmed input as title, at the
     * bottom when Shift is held and at the top otherwise, selects it and
     * clears the box.  Returns the box's new contents.
     */
    method AddTaskKeyPress(key: string, value: string, shiftKey: bool, newId: Id)
      returns (valueAfter: string)
      requires Consistent() && SelectionInStore() && newId !in Ids(store.tasks)
      modifies this, store
      ensures Consistent() && SelectionInStore()
      ensures key != "Enter" || Trim(value) == [] ==>
        && valueAfter == value && store.tasks == old(store.tasks) && store.saved == old(store.saved)
        && selected == old(selected) && menuEnabled == old(menuEnabled)
      ensures key == "Enter" && Trim(value) != [] ==>
        var t := NewTask(newId, value);
        && valueAfter == ""
        && store.tasks == Sort(if shiftKey then old(store.tasks) + [t] else [t] + old(store.tasks))
        && store.saved == Some(store.tasks)
        && selected == Some(newId) && menuEnabled
      ensures old(MenuTracksSelection()) ==> MenuTracksSelection()
    {
      valueAfter := value;
      if key == "Enter" && Trim(value) != [] {
        var newTask := NewTask(newId, value);
        if shiftKey {
          store.AddTask(newTask, "bottom");
        } else {
          store.AddTask(newTask, "top");
        }
        SelectTask(Some(newTask.id));
        valueAfter := "";
      }
    }

    /**
     * The input box's keydown handler: Tab, when `getNumTasks(showingCompleted)`
     * is positive, selects the first task of the list and suppresses the
     * default.  Returns whether the default was suppressed.
     */
    method AddTaskKeyDown(key: string) returns (preventDefault: bool)
      requires Consistent() && SelectionInStore()
      modifies this
      ensures SelectionInStore()
      ensures preventDefault <==> key == "Tab" && GetNumTasks(store.tasks, settings.showingCompleted) > 0
      ensures preventDefault ==> store.tasks != [] && selected == Some(store.tasks[0].id) && menuEnabled
      ensures !preventDefault ==> selected == old(selected) && menuEnabled == old(menuEnabled)
      ensures old(MenuTracksSelection()) ==> MenuTracksSelection()
    {
      preventDefault := false;
      if key == "Tab" && GetNumTasks(store.tasks, settings.showingCompleted) > 0 {
        preventDefault := true;
        var firstTask := GetTaskByIndex(store.tasks, 0);
        IdInIds(store.tasks, firstTask.value);
        SelectTask(Some(firstTask.value.id));
      }
    }

    /** The input box's focus handler: deselect the selected task. */
    method AddTaskFocus()
      modifies this
      ensures selected.None?
      ensures menuEnabled == (old(selected).None? && old(menuEnabled))
      ensures old(MenuTracksSelection()) ==> MenuTracksSelection()
    {
      DeselectTask(selected);
    }

    /* -------------------------------------------------------------------- */
    /* The drop handler (tasks-controller.js:733-755)                       */
    /* -------------------------------------------------------------------- */

    /**
     * A drop on `container` whose children, top to bottom, carry the ids
     * `updatedOrder`.  The selected (dragged) task takes the container's
     * flags in place; the full list is then sorted by position in
     * `updatedOrder` and handed to `replaceTasks`, which restores canonical
     * order.  The dragged task ends in the container's partition, every
     * partition is ordered by `updatedOrder`, and no task is lost or added.
     */
    method Drop(container: Container, updatedOrder: seq<Id>)
      requires store.Valid() && SelectionInStore() && selected.Some?
      modifies this, store
      ensures selected == old(selected) && menuEnabled
      ensures store.Valid() && SelectionInStore()
      ensures var s := old(store.tasks);
        var k := FindIndex(s, old(selected).value);
        && 0 <= k
        && var s1 := s[k := Dropped(s[k], container)];
        && store.tasks == Sort(SortByKey(updatedOrder, Sort(s1)))
        && multiset(store.tasks) == multiset(s1)
      ensures store.saved == Some(store.tasks)
      ensures Canonical(store.tasks)
      ensures forall g :: SortedByKey(updatedOrder, Filter(store.tasks, Is(g)))
      ensures ContainerOf(Lookup(store.tasks, selected.value)) == container
      ensures old(MenuTracksSelection()) ==> MenuTracksSelection()
    {
      var s := store.tasks;
      var k := FindIndex(s, selected.value);
      var dropped := Dropped(s[k], container);
      var s1 := s[k := dropped];
      var taskArray := GetAllTasks(s1);
      var sorted := SortByKey(updatedOrder, taskArray);
      DropReorders(s, k, container, updatedOrder, Sort(sorted));
      store.ReplaceTasks(sorted);
      SelectTask(selected);
    }
  }

  /* ---------------------------------------------------------------------- */
  /* Scenarios                                                               */
  /* ---------------------------------------------------------------------- */

  /**
   * Deleting the only task while it is selected: the selection becomes null
   * but the task menu stays enabled.
   */
  method DeleteOnlyTaskScenario() returns (c: Controller)
    ensures c.selected.None? && c.menuEnabled
    ensures !c.MenuTracksSelection()
  {
    var only := Task("1", "only", false, false, false, None);
    var store := new TaskStore(Some([only]));
    var settings := new Settings(None, None);
    c := new Controller(store, settings);
    assert Ids([only]) == ["1"];
    c.SelectTask(Some("1"));
    c.DeleteTaskAndHighlightNextTask("1", true);
  }

  /** The corrected handler on the same input disables the menu. */
  method DeleteOnlyTaskCorrectedScenario() returns (c: Controller)
    ensures c.selected.None? && !c.menuEnabled
    ensures c.Valid()
  {
    var only := Task("1", "only", false, false, false, None);
    var store := new TaskStore(Some([only]));
    var settings := new Settings(None, None);
    c := new Controller(store, settings);
    assert Ids([only]) == ["1"];
    c.SelectTask(Some("1"));
    c.DeleteTaskAndHighlightNextTaskCorrected("1", true);
  }

  /**
   * Purging while a deleted task is selected: the selection names a task
   * that is no longer in the store.
   */
  method PurgeSelectedScenario() returns (c: Controller)
    ensures c.selected == Some("1") && "1" !in Ids(c.store.tasks)
    ensures !c.SelectionInStore()
  {
    var gone := Task("1", "gone", false, true, false, None);
    var store := new TaskStore(Some([gone]));
    var settings := new Settings(None, None);
    c := new Controller(store, settings);
    assert Ids([gone]) == ["1"];
    c.SelectTask(Some("1"));
    c.PurgeDeletedTasks(true);
    assert Filter([gone], IsNotDeleted) == [];
  }

  /** The corrected handler on the same input deselects the purged task. */
  method PurgeSelectedCorrectedScenario() returns (c: Controller)
    ensures c.selected.None? && c.Valid()
  {
    var gone := Task("1", "gone", false, true, false, None);
    var store := new TaskStore(Some([gone]));
    var settings := new Settings(None, None);
    c := new Controller(store, settings);
    assert Ids([gone]) == ["1"];
    c.SelectTask(Some("1"));
    c.PurgeDeletedTasksCorrected(true);
    assert Filter([gone], IsNotDeleted) == [];
  }
}
