/** What the task list (src/components/todos/TodoList.tsx) shows for the store's list: the caller's
    optional filter, the split of the filtered tasks into open and completed ones, the loading
    spinner, the message shown when no open task is left, and the collapsible completed section. */
module TodoList {
  import opened Types
  import opened Seqs

  predicate IsOpen(t: Todo) {
    !t.is_completed
  }

  predicate IsDone(t: Todo) {
    t.is_completed
  }

  /** filteredTodos: the whole list without a filter, otherwise the tasks that pass it. */
  function Filtered(todos: seq<Todo>, filter: Option<Todo -> bool>): (r: seq<Todo>)
    ensures |r| <= |todos|
    ensures filter.None? ==> r == todos
    ensures filter.Some? ==> forall x :: x in r <==> x in todos && filter.value(x)
  {
    if filter.None? then todos else Filter(todos, filter.value)
  }

  /** activeTodos. */
  function Active(filtered: seq<Todo>): (r: seq<Todo>)
    ensures forall x :: x in r <==> x in filtered && !x.is_completed
  {
    Filter(filtered, IsOpen)
  }

  /** completedTodos. */
  function Completed(filtered: seq<Todo>): (r: seq<Todo>)
    ensures forall x :: x in r <==> x in filtered && x.is_completed
  {
    Filter(filtered, IsDone)
  }

  /** The filtered list keeps the store's order, and keeps all of it when there is no filter. */
  lemma FilteredKeepsOrder(todos: seq<Todo>, filter: Option<Todo -> bool>)
    ensures IsSubsequence(Filtered(todos, filter), todos)
  {
    if filter.None? {
      SubsequenceReflexive(todos);
    } else {
      FilterIsSubsequence(todos, filter.value);
    }
  }

  /** The open and the completed tasks split the filtered list: no task is in both, together they
      hold every filtered task as often as it occurs there, and each keeps the filtered order. */
  lemma ActiveCompletedPartition(filtered: seq<Todo>)
    ensures forall x :: !(x in Active(filtered) && x in Completed(filtered))
    ensures multiset(Active(filtered)) + multiset(Completed(filtered)) == multiset(filtered)
    ensures |Active(filtered)| + |Completed(filtered)| == |filtered|
    ensures IsSubsequence(Active(filtered), filtered) && IsSubsequence(Completed(filtered), filtered)
  {
    FilterPartition(filtered, IsOpen, IsDone);
    FilterIsSubsequence(filtered, IsOpen);
    FilterIsSubsequence(filtered, IsDone);
  }

  /** The text shown when no open task is left. */
  datatype EmptyText = NoTasksYet | CallerMessage(message: string) | NoTasksFound

  /** The completed section: its count and the tasks it lists (none while collapsed). */
  datatype CompletedSection = CompletedSection(count: nat, shown: seq<Todo>)

  datatype View =
    | Spinner
    | Page(active: seq<Todo>, empty: Option<EmptyText>, completed: Option<CompletedSection>)

  /** The rendered list, for the store's list and loading flag, the caller's filter and empty
      message, and whether the completed section is expanded. */
  function Render(todos: seq<Todo>, isLoading: bool, filter: Option<Todo -> bool>,
                  emptyMessage: Option<string>, showCompleted: bool): (v: View)
    ensures v.Spinner? <==> isLoading && todos == []
  {
    if isLoading && todos == [] then Spinner
    else
      var filtered := Filtered(todos, filter);
      var active := Active(filtered);
      var completed := Completed(filtered);
      var empty :=
        if active != [] then None
        else if todos == [] then Some(NoTasksYet)
        else if emptyMessage.Some? then Some(CallerMessage(emptyMessage.value))
        else Some(NoTasksFound);
      var section :=
        if completed == [] then None
        else Some(CompletedSection(|completed|, if showCompleted then completed else []));
      Page(active, empty, section)
  }

  /** What the page shows: the open filtered tasks in order; an empty-state text exactly when
      none is open, which is 'no tasks yet' exactly when the whole list is empty and otherwise the
      caller's message or the fallback; a completed section exactly when some filtered task is
      completed, counting them all and listing them only when expanded. */
  lemma RenderRules(todos: seq<Todo>, isLoading: bool, filter: Option<Todo -> bool>,
                    emptyMessage: Option<string>, showCompleted: bool)
    requires !(isLoading && todos == [])
    ensures var v := Render(todos, isLoading, filter, emptyMessage, showCompleted);
            var filtered := Filtered(todos, filter);
            && v.Page?
            && v.active == Active(filtered)
            && (v.empty.None? <==> exists k :: 0 <= k < |filtered| && !filtered[k].is_completed)
            && (v.empty == Some(NoTasksYet) <==> todos == [])
            && (todos != [] && v.empty.Some? ==>
                  v.empty.value == (if emptyMessage.Some? then CallerMessage(emptyMessage.value) else NoTasksFound))
            && (v.completed.Some? <==> exists k :: 0 <= k < |filtered| && filtered[k].is_completed)
            && (v.completed.Some? ==>
                  && v.completed.value.count == |Completed(filtered)|
                  && v.completed.value.shown == (if showCompleted then Completed(filtered) else []))
  {
    var filtered := Filtered(todos, filter);
    FilterEmpty(filtered, IsOpen);
    FilterEmpty(filtered, IsDone);
  }

  /** Without a filter every task of the list appears once on the page, open or completed. */
  lemma UnfilteredShowsEverything(todos: seq<Todo>, isLoading: bool, emptyMessage: Option<string>)
    requires todos != []
    ensures var v := Render(todos, isLoading, None, emptyMessage, true);
            var shown := if v.completed.Some? then v.completed.value.shown else [];
            v.Page? && multiset(v.active) + multiset(shown) == multiset(todos)
  {
    ActiveCompletedPartition(todos);
    if Completed(todos) == [] {
      assert multiset(Completed(todos)) == multiset{};
    }
  }
}
