/** The list mutations of the task store (addTodo, updateTodo, toggleComplete and deleteTodo in
    src/hooks/useTodos.ts) as functions from the world before to the world after. Every store
    error is caught by the mutation itself, so each returns a world, never an exception. */
module Mutations {
  import opened Types
  import opened Calendar
  import opened Interval
  import opened Reminder
  import opened Recurrence
  import opened Seqs

  // ---------------------------------------------------------------------------------------
  // Partial updates

  /** A Partial<Todo> without id and user_id: a field is overwritten exactly when present. */
  datatype Patch = Patch(
    title: Option<string>,
    description: Option<Option<string>>,
    status: Option<Status>,
    priority: Option<Priority>,
    category_id: Option<Option<Id>>,
    recurring_task_id: Option<Option<Id>>,
    tags: Option<seq<string>>,
    due_date: Option<Option<int>>,
    reminder_time: Option<Option<int>>,
    is_completed: Option<bool>,
    completed_at: Option<Option<int>>)

  /** The object spread { ...t, ...p }. */
  function ApplyPatch(t: Todo, p: Patch): (r: Todo)
    ensures r.id == t.id && r.user_id == t.user_id
  {
    Todo(t.id, t.user_id,
         p.title.GetOr(t.title),
         p.description.GetOr(t.description),
         p.status.GetOr(t.status),
         p.priority.GetOr(t.priority),
         p.category_id.GetOr(t.category_id),
         p.recurring_task_id.GetOr(t.recurring_task_id),
         p.tags.GetOr(t.tags),
         p.due_date.GetOr(t.due_date),
         p.reminder_time.GetOr(t.reminder_time),
         p.is_completed.GetOr(t.is_completed),
         p.completed_at.GetOr(t.completed_at))
  }

  /** The update toggleComplete sends: the three completion fields and nothing else. */
  function CompletionPatch(done: bool, at: int): Patch {
    Patch(None, None, Some(if done then Completed else Pending), None, None, None, None, None, None,
          Some(done), Some(if done then Some(at) else None))
  }

  /** The completion patch sets is_completed, status and completed_at in lock-step and leaves
      every other field as it was. */
  lemma CompletionPatchLockStep(t: Todo, done: bool, at: int)
    ensures var r := ApplyPatch(t, CompletionPatch(done, at));
            && CompletionConsistent(r)
            && r.is_completed == done
            && (done ==> r.status == Completed && r.completed_at == Some(at))
            && (!done ==> r.status == Pending && r.completed_at == None)
            && r == t.(status := r.status, is_completed := done, completed_at := r.completed_at)
  {
  }

  /** todos.map(t => t.id === id ? { ...t, ...p } : t). */
  function PatchEntries(s: seq<Todo>, id: Id, p: Patch): (r: seq<Todo>)
    ensures |r| == |s|
    ensures forall i :: 0 <= i < |s| ==> r[i] == (if s[i].id == id then ApplyPatch(s[i], p) else s[i])
  {
    if s == [] then [] else [if s[0].id == id then ApplyPatch(s[0], p) else s[0]] + PatchEntries(s[1..], id, p)
  }

  /** todos.map(t => t.id === id ? row : t). */
  function ReplaceEntries(s: seq<Todo>, id: Id, row: Todo): (r: seq<Todo>)
    ensures |r| == |s|
    ensures forall i :: 0 <= i < |s| ==> r[i] == (if s[i].id == id then row else s[i])
  {
    if s == [] then [] else [if s[0].id == id then row else s[0]] + ReplaceEntries(s[1..], id, row)
  }

  /** todos.filter(t => t.id !== id). */
  function Without(s: seq<Todo>, id: Id): seq<Todo> {
    Filter(s, (t: Todo) => t.id != id)
  }

  /** The row of id after a successful update; an update matching no row changes nothing. */
  function PatchRow(rows: map<Id, Todo>, id: Id, p: Patch): (r: map<Id, Todo>)
    ensures r.Keys == rows.Keys
    ensures forall k :: k in rows && k != id ==> r[k] == rows[k]
    ensures forall k :: k in rows ==> r[k].id == rows[k].id
  {
    if id in rows then rows[id := ApplyPatch(rows[id], p)] else rows
  }

  // ---------------------------------------------------------------------------------------
  // updateTodo

  /** updateTodo: on success the row and every list entry with the id take the patch; on a
      store error nothing changes. */
  function UpdateTodo(w: World, id: Id, p: Patch, writeOk: bool): (w': World)
    ensures !writeOk ==> w' == w
    ensures w'.defs == w.defs && w'.nextId == w.nextId
    ensures |w'.todos| == |w.todos|
    ensures forall i :: 0 <= i < |w.todos| && w.todos[i].id != id ==> w'.todos[i] == w.todos[i]
    ensures writeOk ==> forall i :: 0 <= i < |w.todos| && w.todos[i].id == id ==> w'.todos[i] == ApplyPatch(w.todos[i], p)
    ensures writeOk ==> w'.rows == PatchRow(w.rows, id, p)
    ensures WorldValid(w) ==> WorldValid(w')
  {
    if !writeOk then w
    else w.(rows := PatchRow(w.rows, id, p), todos := PatchEntries(w.todos, id, p))
  }

  // ---------------------------------------------------------------------------------------
  // toggleComplete

  /** What the store answers during toggleComplete: the write of the completion fields, the
      re-read of the row after a failed write, and the replies during the after-completion rule. */
  datatype ToggleEnv = ToggleEnv(clock: int, writeOk: bool, rereadOk: bool, completion: CompletionEnv)

  /** toggleComplete: optimistic update of the list; on a failed write the entry is replaced by
      the re-read row when there is one; after a successful write that marks the task done, the
      after-completion rule runs on the entry as it now stands. */
  function ToggleComplete(w: World, id: Id, done: bool, e: ToggleEnv): (w': World)
    requires CompletionDefsSteppable(w.defs)
    ensures WorldValid(w) ==> WorldValid(w')
  {
    var p := CompletionPatch(done, e.clock);
    var optimistic := w.(todos := PatchEntries(w.todos, id, p));
    if !e.writeOk then
      if e.rereadOk && id in w.rows then optimistic.(todos := ReplaceEntries(optimistic.todos, id, w.rows[id]))
      else optimistic
    else
      var written := optimistic.(rows := PatchRow(w.rows, id, p));
      PatchRowKeepsValid(w, optimistic.todos, id, p);
      if !done then written
      else match FindById(written.todos, id)
        case None => written
        case Some(current) => Outcome(CompletionStep(written, current, e.clock, e.completion))
  }

  /** A successful write of a patch keeps the database invariant, whatever the list shows. */
  lemma PatchRowKeepsValid(w: World, todos: seq<Todo>, id: Id, p: Patch)
    ensures WorldValid(w) ==> WorldValid(w.(todos := todos, rows := PatchRow(w.rows, id, p)))
  {
  }

  /** A failed write leaves the tables alone; every other entry is untouched and the target
      entry holds either the re-read row or the optimistic value. The after-completion rule
      does not run. */
  lemma ToggleFailedWrite(w: World, id: Id, done: bool, e: ToggleEnv)
    requires CompletionDefsSteppable(w.defs)
    requires !e.writeOk
    ensures var w' := ToggleComplete(w, id, done, e);
            && w'.rows == w.rows && w'.defs == w.defs && w'.nextId == w.nextId
            && |w'.todos| == |w.todos|
            && (forall i :: 0 <= i < |w.todos| && w.todos[i].id != id ==> w'.todos[i] == w.todos[i])
            && (forall i :: 0 <= i < |w.todos| && w.todos[i].id == id ==>
                  w'.todos[i] == (if e.rereadOk && id in w.rows then w.rows[id] else ApplyPatch(w.todos[i], CompletionPatch(done, e.clock))))
  {
  }

  /** Reopening a task (done false) with a successful write changes exactly the completion
      fields of the entries and the row with that id, in lock-step, and creates nothing. */
  lemma ToggleReopen(w: World, id: Id, e: ToggleEnv)
    requires CompletionDefsSteppable(w.defs)
    requires e.writeOk
    ensures var w' := ToggleComplete(w, id, false, e);
            && w'.defs == w.defs && w'.nextId == w.nextId
            && w'.todos == PatchEntries(w.todos, id, CompletionPatch(false, e.clock))
            && (forall i :: 0 <= i < |w'.todos| && w'.todos[i].id == id ==>
                  CompletionConsistent(w'.todos[i]) && w'.todos[i].status == Pending)
  {
    forall i | 0 <= i < |w.todos| && w.todos[i].id == id {
      CompletionPatchLockStep(w.todos[i], false, e.clock);
    }
  }

  /** Completing a task with a successful write: the list is the patched list, possibly with
      one new instance in front; every patched entry is completed at the clock reading, with
      the three fields in lock-step, and only entries with that id changed. The after-completion
      rule then runs on the first patched entry with the id, over the written world, and its
      outcome is the final world. */
  lemma ToggleMarkDone(w: World, id: Id, e: ToggleEnv)
    requires CompletionDefsSteppable(w.defs)
    requires e.writeOk
    ensures var w' := ToggleComplete(w, id, true, e);
            var patched := PatchEntries(w.todos, id, CompletionPatch(true, e.clock));
            var written := w.(todos := patched, rows := PatchRow(w.rows, id, CompletionPatch(true, e.clock)));
            && (FindById(patched, id).None? ==> w' == written)
            && (FindById(patched, id).Some? ==>
                  w' == Outcome(CompletionStep(written, FindById(patched, id).value, e.clock, e.completion)))
            && GrewByAtMostOne(patched, w'.todos)
            && (forall i :: 0 <= i < |patched| && patched[i].id == id ==>
                  CompletionConsistent(patched[i]) && patched[i].completed_at == Some(e.clock))
            && (forall i :: 0 <= i < |patched| && w.todos[i].id != id ==> patched[i] == w.todos[i])
  {
    var p := CompletionPatch(true, e.clock);
    var patched := PatchEntries(w.todos, id, p);
    forall i | 0 <= i < |w.todos| && w.todos[i].id == id {
      CompletionPatchLockStep(w.todos[i], true, e.clock);
    }
    var written := w.(todos := patched, rows := PatchRow(w.rows, id, p));
    ToggleRunsRule(w, id, e);
    match FindById(patched, id)
    case None =>
    case Some(current) =>
      AfterCompletionGrowth(written, current, e.clock, e.completion);
  }

  /** After a successful completing write, the final world is the written world, or what the
      after-completion rule makes of it for the first entry with the id. */
  lemma ToggleRunsRule(w: World, id: Id, e: ToggleEnv)
    requires CompletionDefsSteppable(w.defs)
    requires e.writeOk
    ensures var p := CompletionPatch(true, e.clock);
            var patched := PatchEntries(w.todos, id, p);
            var written := w.(todos := patched, rows := PatchRow(w.rows, id, p));
            ToggleComplete(w, id, true, e)
              == if FindById(patched, id).None? then written
                 else Outcome(CompletionStep(written, FindById(patched, id).value, e.clock, e.completion))
  {
  }

  /** The first entry with the id after patching is the patched first entry with the id. */
  lemma {:induction false} FindPatched(s: seq<Todo>, id: Id, p: Patch)
    ensures FindById(PatchEntries(s, id, p), id)
            == (if FindById(s, id).Some? then Some(ApplyPatch(FindById(s, id).value, p)) else None)
  {
    if s != [] {
      FindPatched(s[1..], id, p);
      assert PatchEntries(s, id, p)[1..] == PatchEntries(s[1..], id, p);
    }
  }

  /** The world the after-completion rule leaves when all its replies are successes: nothing
      new when a task of the definition is already due at the computed date; otherwise the next
      instance in front, unless its reminder time is invalid, which throws and leaves the world
      as it was. Whenever nothing throws, the cursor is set to that due date. */
  lemma RuleOutcome(w: World, todo: Todo, completedAt: int, e: CompletionEnv)
    requires CompletionDefsSteppable(w.defs) && DefsKeyed(w.defs)
    requires CompletionApplies(w, todo, e.readOk) && e.insertOk && e.updateOk
    ensures var r := w.defs[todo.recurring_task_id.value];
            var next := CompletionNext(todo, r, completedAt);
            var thrown := !HasInstance(w.todos, r.id, next) && ApplyReminderTime(next, r.reminder_time).InvalidTime?;
            var w' := Outcome(CompletionStep(w, todo, completedAt, e));
            && (HasInstance(w.todos, r.id, next) ==> w'.todos == w.todos)
            && (!HasInstance(w.todos, r.id, next) && !thrown ==>
                  && |w'.todos| == |w.todos| + 1 && w'.todos[1..] == w.todos
                  && IsInstanceOf(w'.todos[0], todo, r, next))
            && (thrown ==> w' == w)
            && (!thrown ==> r.id in w'.defs && w'.defs[r.id].next_run_at == Some(next))
  {
    CompletionOutcome(w, todo, completedAt, e);
    CompletionThrows(w, todo, completedAt, e);
  }

  /** Completing a task whose definition is in after-completion mode runs the rule on the
      completed entry. With the replies of the rule all successes: a task of the definition
      already due at the computed date suppresses creation; otherwise the next instance, copied
      from the completed task and due strictly after the completion, goes in front of the
      patched list, unless its reminder time is invalid, which throws and leaves the written
      world. Whenever nothing throws, the definition's cursor is set to that due date. */
  lemma CompletingCreatesNextInstance(w: World, id: Id, e: ToggleEnv)
    requires CompletionDefsSteppable(w.defs) && DefsKeyed(w.defs)
    requires e.writeOk && e.completion.readOk && e.completion.insertOk && e.completion.updateOk
    requires FindById(w.todos, id).Some?
    requires var t := FindById(w.todos, id).value;
             t.recurring_task_id.Some? && t.recurring_task_id.value in w.defs
             && w.defs[t.recurring_task_id.value].mode.AfterCompletion?
    ensures var p := CompletionPatch(true, e.clock);
            var t := FindById(w.todos, id).value;
            var cur := ApplyPatch(t, p);
            var r := w.defs[t.recurring_task_id.value];
            var next := CompletionNext(cur, r, e.clock);
            var patched := PatchEntries(w.todos, id, p);
            var thrown := !HasInstance(patched, r.id, next) && ApplyReminderTime(next, r.reminder_time).InvalidTime?;
            var w' := ToggleComplete(w, id, true, e);
            && next > e.clock
            && (HasInstance(patched, r.id, next) ==> w'.todos == patched)
            && (!HasInstance(patched, r.id, next) && !thrown ==>
                  && |w'.todos| == |patched| + 1 && w'.todos[1..] == patched
                  && IsInstanceOf(w'.todos[0], cur, r, next))
            && (thrown ==> w'.todos == patched && w'.defs == w.defs)
            && (!thrown ==> r.id in w'.defs && w'.defs[r.id].next_run_at == Some(next))
  {
    var p := CompletionPatch(true, e.clock);
    var cur := ApplyPatch(FindById(w.todos, id).value, p);
    var patched := PatchEntries(w.todos, id, p);
    var written := w.(todos := patched, rows := PatchRow(w.rows, id, p));
    assert cur.recurring_task_id == FindById(w.todos, id).value.recurring_task_id;
    FindPatched(w.todos, id, p);
    ToggleMarkDone(w, id, e);
    assert ToggleComplete(w, id, true, e) == Outcome(CompletionStep(written, cur, e.clock, e.completion));
    RuleOutcome(written, cur, e.clock, e.completion);
  }

  /** The after-completion rule adds at most one task to the list and otherwise keeps it. */
  lemma AfterCompletionGrowth(w: World, todo: Todo, completedAt: int, e: CompletionEnv)
    requires CompletionDefsSteppable(w.defs)
    ensures var s := CompletionStep(w, todo, completedAt, e);
            && (s.Ok? ==> GrewByAtMostOne(w.todos, s.world.todos))
            && (s.Threw? ==> s.at == w)
  {
  }

  // ---------------------------------------------------------------------------------------
  // deleteTodo

  /** deleteTodo: the optimistic removal stands when the delete succeeds; on a store error the
      previous list is restored exactly. */
  function DeleteTodo(w: World, id: Id, deleteOk: bool): (w': World)
    ensures !deleteOk ==> w' == w
    ensures w'.defs == w.defs && w'.nextId == w.nextId
    ensures WorldValid(w) ==> WorldValid(w')
  {
    if !deleteOk then w
    else w.(todos := Without(w.todos, id), rows := w.rows - {id})
  }

  /** A successful delete removes every entry with the id and no other: the rest keep their
      order and their multiplicity. */
  lemma DeleteRemovesOnlyTarget(w: World, id: Id)
    ensures var w' := DeleteTodo(w, id, true);
            && (forall t :: t in w'.todos <==> t in w.todos && t.id != id)
            && IsSubsequence(w'.todos, w.todos)
            && multiset(w'.todos) + multiset(Filter(w.todos, (t: Todo) => t.id == id)) == multiset(w.todos)
            && id !in w'.rows
            && (forall k :: k in w.rows && k != id ==> k in w'.rows && w'.rows[k] == w.rows[k])
  {
    FilterIsSubsequence(w.todos, (t: Todo) => t.id != id);
    FilterPartition(w.todos, (t: Todo) => t.id != id, (t: Todo) => t.id == id);
  }

  /** Deleting an id no entry has keeps the list as it was. */
  lemma DeleteAbsentKeepsList(w: World, id: Id)
    requires forall i :: 0 <= i < |w.todos| ==> w.todos[i].id != id
    ensures DeleteTodo(w, id, true).todos == w.todos
  {
    FilterAll(w.todos, (t: Todo) => t.id != id);
  }

  // ---------------------------------------------------------------------------------------
  // addTodo

  /** The recurrence chosen in the form. */
  datatype RecurrenceInput = RecurrenceInput(mode: Mode, frequency: Frequency, interval: int,
                                             startDate: Option<int>, reminderTime: Option<string>)

  /** The argument of addTodo: the task columns chosen in the form, and the recurrence. */
  datatype NewTodo = NewTodo(
    title: string,
    description: Option<string>,
    status: Status,
    priority: Priority,
    category_id: Option<Id>,
    recurring_task_id: Option<Id>,
    tags: seq<string>,
    due_date: Option<int>,
    reminder_time: Option<int>,
    recurrence: Option<RecurrenceInput>)

  /** What the store answers during addTodo: the signed-in user, the clock, the task insert,
      the definition insert and the update linking the task to its definition. */
  datatype AddEnv = AddEnv(user: Option<Id>, clock: int, todoInsertOk: bool, defInsertOk: bool, linkOk: bool)

  /** The due date sent: a scheduled recurrence with a start date fills in a missing due date. */
  function EffectiveDue(input: NewTodo): Option<int> {
    var rec := input.recurrence;
    if rec.Some? && rec.value.mode.Scheduled? && input.due_date.None? && rec.value.startDate.Some?
    then rec.value.startDate
    else input.due_date
  }

  /** The reminder time is projected onto the due date when the recurrence has a non-empty time
      of day and there is a due date. */
  predicate ProjectsReminder(input: NewTodo) {
    && input.recurrence.Some?
    && input.recurrence.value.reminderTime.Some?
    && input.recurrence.value.reminderTime.value != ""
    && EffectiveDue(input).Some?
  }

  /** The base date of the new definition: its start date, or the task's due date. */
  function RecurrenceBase(input: NewTodo): Option<int>
    requires input.recurrence.Some?
  {
    if input.recurrence.value.startDate.Some? then input.recurrence.value.startDate else EffectiveDue(input)
  }

  /** addTodo only runs a stepping loop for a scheduled recurrence without any base date. */
  predicate AddSteppable(input: NewTodo) {
    (input.recurrence.Some? && input.recurrence.value.mode.Scheduled? && RecurrenceBase(input).None?)
      ==> input.recurrence.value.interval >= 1
  }

  /** The first cursor of a new definition: one step after the base, or the first step after
      the clock when there is no base; none in after-completion mode. */
  function InitialCursor(rc: RecurrenceInput, base: Option<int>, clock: int): (c: Option<int>)
    requires rc.mode.Scheduled? && base.None? ==> rc.interval >= 1
    ensures c.Some? <==> rc.mode.Scheduled?
    ensures c.Some? && base.None? ==> c.value > clock
    ensures c.Some? && base.Some? && rc.interval >= 1 ==> c.value >= base.value + MsPerDay
  {
    if !rc.mode.Scheduled? then None
    else if base.Some? then Some(AddInterval(base.value, rc.frequency, rc.interval))
    else Some(AdvancePast(Period(rc.frequency, rc.interval), clock, clock))
  }

  /** addTodo. A missing user or an invalid reminder time stops before anything is written. A
      failed definition insert or link update leaves the already inserted task row (and
      definition row) behind but the list unchanged. */
  function AddTodo(w: World, input: NewTodo, e: AddEnv): (w': World)
    requires AddSteppable(input)
    ensures WorldValid(w) ==> WorldValid(w')
  {
    var due := EffectiveDue(input);
    var projected := if ProjectsReminder(input) then ApplyReminderTime(due.value, input.recurrence.value.reminderTime) else NoReminder;
    if e.user.None? || projected.InvalidTime? || !e.todoInsertOk then w
    else
      var reminder := if ProjectsReminder(input) then ReminderColumn(projected) else input.reminder_time;
      var created := Todo(w.nextId, e.user.value, input.title, input.description, Pending, input.priority,
                          input.category_id, input.recurring_task_id, input.tags, due, reminder, false, None);
      var w1 := w.(rows := w.rows[created.id := created], nextId := w.nextId + 1);
      if input.recurrence.None? then w1.(todos := [created] + w.todos)
      else if !e.defInsertOk then w1
      else
        var rc := input.recurrence.value;
        var base := RecurrenceBase(input);
        var startValue := if base.Some? then Some(DayStart(base.value)) else None;
        var def := RecurringTask(w1.nextId, e.user.value, created.id, rc.mode, rc.frequency, rc.interval,
                                 startValue, InitialCursor(rc, base, e.clock), rc.reminderTime, None, None);
        var w2 := w1.(defs := w1.defs[def.id := def], nextId := w1.nextId + 1);
        if !e.linkOk then w2
        else
          var linked := created.(recurring_task_id := Some(def.id));
          w2.(rows := w2.rows[created.id := linked], todos := [linked] + w2.todos)
  }

  /** Whether every store call addTodo makes succeeds. */
  predicate AddSucceeds(input: NewTodo, e: AddEnv) {
    && e.user.Some?
    && e.todoInsertOk
    && !ProjectionFails(input)
    && (input.recurrence.Some? ==> e.defInsertOk && e.linkOk)
  }

  /** A successful addTodo puts one new pending, uncompleted task owned by the user in front of
      the list, with the chosen columns, and stores it as a row; with a recurrence it is linked
      to a new definition that names it as template, carries the chosen mode, frequency,
      interval and time of day, starts on the day of its base date, and whose cursor is set by
      InitialCursor. No other row or definition changes, and under the database invariant both
      new ids were unused. */
  lemma AddTodoSucceeds(w: World, input: NewTodo, e: AddEnv)
    requires AddSteppable(input)
    requires AddSucceeds(input, e)
    ensures var w' := AddTodo(w, input, e);
            && |w'.todos| == |w.todos| + 1 && w'.todos[1..] == w.todos
            && var t := w'.todos[0];
            && t.id == w.nextId && w'.rows == w.rows[t.id := t]
            && t.user_id == e.user.value && t.title == input.title && t.priority == input.priority
            && t.description == input.description && t.category_id == input.category_id && t.tags == input.tags
            && t.status == Pending && !t.is_completed && t.completed_at == None
            && CompletionConsistent(t)
            && t.due_date == EffectiveDue(input)
            && (WorldValid(w) ==> w.nextId !in w.rows && w.nextId + 1 !in w.defs)
            && (input.recurrence.None? ==>
                  t.recurring_task_id == input.recurring_task_id && w'.defs == w.defs && w'.nextId == w.nextId + 1)
            && (input.recurrence.Some? ==>
                  && var rc := input.recurrence.value;
                  && var base := RecurrenceBase(input);
                  && t.recurring_task_id == Some(w.nextId + 1)
                  && w'.nextId == w.nextId + 2
                  && w.nextId + 1 in w'.defs
                  && var d := w'.defs[w.nextId + 1];
                  && w'.defs == w.defs[d.id := d]
                  && d.id == w.nextId + 1 && d.user_id == e.user.value
                  && d.todo_id == t.id && d.mode == rc.mode
                  && d.frequency == rc.frequency && d.interval == rc.interval
                  && d.start_date == (if base.Some? then Some(DayStart(base.value)) else None)
                  && d.reminder_time == rc.reminderTime
                  && d.next_run_at == InitialCursor(rc, base, e.clock)
                  && d.end_date.None? && d.last_generated_at.None?)
  {
    if input.recurrence.Some? {
      var w' := AddTodo(w, input, e);
      var t := w'.todos[0];
      var created := t.(recurring_task_id := input.recurring_task_id);
      assert w'.rows == w.rows[t.id := created][t.id := t];
    }
  }

  /** The reminder projection of addTodo fails (a time field is not a number). */
  predicate ProjectionFails(input: NewTodo) {
    ProjectsReminder(input) && ApplyReminderTime(EffectiveDue(input).value, input.recurrence.value.reminderTime).InvalidTime?
  }

  /** If any step of addTodo fails, the list is unchanged. A missing user, an invalid reminder
      time or a failed task insert changes nothing at all; a failure after the task insert leaves
      the new task row in the table, not linked to any definition, although the list does not
      show it. */
  lemma AddTodoFailureKeepsList(w: World, input: NewTodo, e: AddEnv)
    requires AddSteppable(input)
    requires !AddSucceeds(input, e)
    ensures AddTodo(w, input, e).todos == w.todos
    ensures e.user.None? || ProjectionFails(input) || !e.todoInsertOk ==> AddTodo(w, input, e) == w
    ensures e.user.Some? && !ProjectionFails(input) && e.todoInsertOk ==>
              && w.nextId in AddTodo(w, input, e).rows
              && AddTodo(w, input, e).rows[w.nextId].recurring_task_id == input.recurring_task_id
  {
  }

  /** The reminder of the new task: projected from the recurrence's time of day onto the due
      date when there is both, else the one chosen in the form. */
  lemma AddTodoReminder(w: World, input: NewTodo, e: AddEnv)
    requires AddSteppable(input)
    requires AddSucceeds(input, e)
    ensures var t := AddTodo(w, input, e).todos[0];
            && (ProjectsReminder(input) ==>
                  t.reminder_time == ReminderColumn(ApplyReminderTime(EffectiveDue(input).value, input.recurrence.value.reminderTime))
                  && t.reminder_time.Some?)
            && (!ProjectsReminder(input) ==> t.reminder_time == input.reminder_time)
  {
    AddTodoSucceeds(w, input, e);
  }
}
