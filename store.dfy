/** The task store of src/hooks/useTodos.ts as an object: the in-memory task list it replaces
    through `set`, the rows of the todos and recurring_tasks tables it writes, and the next id the
    database hands out. Every method is proved to end in the state the matching function of
    modules Recurrence and Mutations computes from the state it started in. */
module Store {
  import opened Types
  import opened Calendar
  import opened Interval
  import opened Reminder
  import opened Recurrence
  import opened Mutations

  class TodoStore {
    var todos: seq<Todo>
    var rows: map<Id, Todo>
    var defs: map<Id, RecurringTask>
    var nextId: nat

    function State(): World
      reads this
    {
      World(todos, rows, defs, nextId)
    }

    /** The database invariant: rows and definitions keyed by their own ids, every id in use
        below nextId. */
    ghost predicate Valid()
      reads this
    {
      WorldValid(State())
    }

    /** The store starts with an empty list (and, in this model, empty tables). */
    constructor()
      ensures Valid()
      ensures State() == World([], map[], map[], 0)
    {
      todos := [];
      rows := map[];
      defs := map[];
      nextId := 0;
    }

    /** createRecurringInstance; `ok` is false when it throws. */
    method CreateRecurringInstance(template: Todo, r: RecurringTask, due: int, insertOk: bool) returns (ok: bool)
      requires Valid()
      modifies this
      ensures Materialize(old(State()), template, r, due, insertOk) == (if ok then Ok(State()) else Threw(State()))
      ensures Valid()
    {
      var reminder := ApplyReminderTime(due, r.reminder_time);
      if reminder.InvalidTime? || !insertOk {
        return false;
      }
      var created := Todo(nextId, template.user_id, template.title, template.description, Pending,
                          template.priority, template.category_id, Some(r.id), template.tags,
                          Some(due), ReminderColumn(reminder), false, None);
      rows := rows[created.id := created];
      nextId := nextId + 1;
      todos := [created] + todos;
      ok := true;
    }

    /** The update of a definition's cursor (and, when given, of last_generated_at). */
    method UpdateCursor(id: Id, cursor: int, generatedAt: Option<int>)
      requires Valid()
      modifies this
      ensures State() == SetCursor(old(State()), id, cursor, generatedAt)
      ensures Valid()
    {
      if id in defs {
        var d := defs[id];
        var stamp := if generatedAt.Some? then generatedAt else d.last_generated_at;
        defs := defs[id := d.(next_run_at := Some(cursor), last_generated_at := stamp)];
      }
    }

    /** The body of the scan's loop for one listed definition; `ok` is false when it throws. */
    method ScanOne(snapshot: seq<Todo>, now: int, r: RecurringTask, e: ScanEnv) returns (ok: bool)
      requires Steppable(r)
      requires Valid()
      modifies this
      ensures ScanStep(old(State()), snapshot, now, r, e) == (if ok then Ok(State()) else Threw(State()))
      ensures Valid()
    {
      ok := true;
      if !r.mode.Scheduled? {
        return;
      }
      var found := FindById(snapshot, r.todo_id);
      if found.None? {
        return;
      }
      var template := found.value;
      var cursor: int;
      if r.next_run_at.Some? {
        cursor := r.next_run_at.value;
      } else if SeedBase(r, template).Some? {
        cursor := AddInterval(SeedBase(r, template).value, r.frequency, r.interval);
      } else {
        cursor := AdvanceToFuture(e.clock, r.frequency, r.interval, e.clock);
      }
      if cursor <= now {
        if !HasInstance(snapshot, r.id, cursor) {
          ok := CreateRecurringInstance(template, r, cursor, e.insertOk);
          if !ok {
            return;
          }
        }
        var following := AdvanceToFuture(AddInterval(cursor, r.frequency, r.interval), r.frequency, r.interval, e.clock);
        if e.updateOk {
          UpdateCursor(r.id, following, Some(e.clock));
        }
      } else if r.next_run_at.None? && e.updateOk {
        UpdateCursor(r.id, cursor, None);
      }
    }

    /** generateScheduledTasks over the definitions listed for the user, with the task list
      `snapshot` it was called with and its clock reading `now`. */
    method GenerateScheduledTasks(snapshot: seq<Todo>, now: int, listed: seq<RecurringTask>, envs: seq<ScanEnv>)
      requires |envs| == |listed|
      requires forall i :: 0 <= i < |listed| ==> Steppable(listed[i])
      requires Valid()
      modifies this
      ensures State() == Scan(old(State()), snapshot, now, listed, envs)
      ensures Valid()
    {
      var i := 0;
      while i < |listed|
        invariant 0 <= i <= |listed|
        invariant Valid()
        invariant Scan(State(), snapshot, now, listed[i..], envs[i..]) == Scan(old(State()), snapshot, now, listed, envs)
      {
        assert listed[i..][0] == listed[i] && listed[i..][1..] == listed[i + 1..];
        assert envs[i..][0] == envs[i] && envs[i..][1..] == envs[i + 1..];
        var ok := ScanOne(snapshot, now, listed[i], envs[i]);
        if !ok {
          return;
        }
        i := i + 1;
      }
    }

    /** handleAfterCompletion; `ok` is false when it throws. When the rule applies and nothing
        throws, a successful cursor update leaves the definition's cursor on the computed due
        date, the first step after the completion. */
    method HandleAfterCompletion(todo: Todo, completedAt: int, e: CompletionEnv) returns (ok: bool)
      requires CompletionDefsSteppable(defs)
      requires Valid()
      modifies this
      ensures CompletionStep(old(State()), todo, completedAt, e) == (if ok then Ok(State()) else Threw(State()))
      ensures ok && e.updateOk && CompletionApplies(old(State()), todo, e.readOk) ==>
                var rid := todo.recurring_task_id.value;
                && rid in defs
                && defs[rid].next_run_at == Some(CompletionNext(todo, old(defs)[rid], completedAt))
                && defs[rid].next_run_at.value > completedAt
      ensures Valid()
    {
      ok := true;
      if todo.recurring_task_id.None? || !e.readOk || todo.recurring_task_id.value !in defs {
        return;
      }
      var r := defs[todo.recurring_task_id.value];
      if !r.mode.AfterCompletion? {
        return;
      }
      CompletionOutcome(State(), todo, completedAt, e);
      var base := if todo.due_date.Some? then todo.due_date.value
                  else if r.start_date.Some? then r.start_date.value
                  else completedAt;
      var next := GetNextScheduledDate(base, r.frequency, r.interval, completedAt);
      if !HasInstance(todos, r.id, next) {
        ok := CreateRecurringInstance(todo, r, next, e.insertOk);
        if !ok {
          return;
        }
      }
      if e.updateOk {
        UpdateCursor(r.id, next, Some(e.clock));
      }
    }

    /** addTodo. */
    method AddTodo(input: NewTodo, e: AddEnv)
      requires AddSteppable(input)
      requires Valid()
      modifies this
      ensures State() == Mutations.AddTodo(old(State()), input, e)
      ensures Valid()
    {
      if e.user.None? {
        return;
      }
      var due := EffectiveDue(input);
      var reminder := input.reminder_time;
      if ProjectsReminder(input) {
        var projected := ApplyReminderTime(due.value, input.recurrence.value.reminderTime);
        if projected.InvalidTime? {
          return;
        }
        reminder := ReminderColumn(projected);
      }
      if !e.todoInsertOk {
        return;
      }
      var created := Todo(nextId, e.user.value, input.title, input.description, Pending, input.priority,
                          input.category_id, input.recurring_task_id, input.tags, due, reminder, false, None);
      rows := rows[created.id := created];
      nextId := nextId + 1;
      if input.recurrence.Some? {
        var rc := input.recurrence.value;
        var base := RecurrenceBase(input);
        var startValue := if base.Some? then Some(DayStart(base.value)) else None;
        var cursor: Option<int> := None;
        if rc.mode.Scheduled? {
          if base.Some? {
            cursor := Some(AddInterval(base.value, rc.frequency, rc.interval));
          } else {
            var first := AdvanceToFuture(e.clock, rc.frequency, rc.interval, e.clock);
            cursor := Some(first);
          }
        }
        if !e.defInsertOk {
          return;
        }
        var def := RecurringTask(nextId, e.user.value, created.id, rc.mode, rc.frequency, rc.interval,
                                 startValue, cursor, rc.reminderTime, None, None);
        defs := defs[def.id := def];
        nextId := nextId + 1;
        if !e.linkOk {
          return;
        }
        created := created.(recurring_task_id := Some(def.id));
        rows := rows[created.id := created];
      }
      todos := [created] + todos;
    }

    /** updateTodo. */
    method UpdateTodo(id: Id, p: Patch, writeOk: bool)
      requires Valid()
      modifies this
      ensures State() == Mutations.UpdateTodo(old(State()), id, p, writeOk)
      ensures Valid()
    {
      if !writeOk {
        return;
      }
      rows := PatchRow(rows, id, p);
      todos := PatchEntries(todos, id, p);
    }

    /** toggleComplete. */
    method ToggleComplete(id: Id, done: bool, e: ToggleEnv)
      requires CompletionDefsSteppable(defs)
      requires Valid()
      modifies this
      ensures State() == Mutations.ToggleComplete(old(State()), id, done, e)
      ensures Valid()
    {
      var p := CompletionPatch(done, e.clock);
      todos := PatchEntries(todos, id, p);
      if !e.writeOk {
        if e.rereadOk && id in rows {
          todos := ReplaceEntries(todos, id, rows[id]);
        }
        return;
      }
      rows := PatchRow(rows, id, p);
      if !done {
        return;
      }
      var current := FindById(todos, id);
      if current.Some? {
        var ok := HandleAfterCompletion(current.value, e.clock, e.completion);
      }
    }

    /** deleteTodo. */
    method DeleteTodo(id: Id, deleteOk: bool)
      requires Valid()
      modifies this
      ensures State() == Mutations.DeleteTodo(old(State()), id, deleteOk)
      ensures Valid()
    {
      var previous := todos;
      todos := Without(todos, id);
      if !deleteOk {
        todos := previous;
        return;
      }
      rows := rows - {id};
    }
  }
}
