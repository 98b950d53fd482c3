/** The recurrence engine as values: the instance materialiser (createRecurringInstance), one
    step and the whole of the scheduled-mode scan (generateScheduledTasks) and the
    after-completion rule (handleAfterCompletion), all in src/hooks/useTodos.ts. The class
    TodoStore (module Store) runs the same steps in place and is proved equal to these. */
module Recurrence {
  import opened Types
  import opened Calendar
  import opened Interval
  import opened Reminder

  /** The in-memory task list of the store, the rows of the todos and recurring_tasks tables,
      and the next identifier the database hands out. */
  datatype World = World(todos: seq<Todo>, rows: map<Id, Todo>, defs: map<Id, RecurringTask>, nextId: nat)

  /** A step either finishes with a new world or throws, leaving the world as it was when the
      exception was raised. */
  datatype Step = Ok(world: World) | Threw(at: World)

  /** The world a step leaves behind, whether it finished or threw. */
  function Outcome(s: Step): World {
    if s.Ok? then s.world else s.at
  }

  /** What the database keeps true: every row and every definition is stored under its own id,
      and every id in use is below the next id it hands out, so an insert adds a new row. */
  predicate WorldValid(w: World) {
    && (forall k :: k in w.rows ==> w.rows[k].id == k && k < w.nextId)
    && (forall k :: k in w.defs ==> k < w.nextId)
    && DefsKeyed(w.defs)
  }

  /** What the clock and the store answer while the scan handles one definition: the reading of
      the clock taken by advanceToFuture (and for last_generated_at), whether the instance insert
      succeeds and whether the cursor update succeeds. */
  datatype ScanEnv = ScanEnv(clock: int, insertOk: bool, updateOk: bool)

  /** The replies during handleAfterCompletion: the definition select, the instance insert, the
      cursor update, and the clock reading stored as last_generated_at. */
  datatype CompletionEnv = CompletionEnv(readOk: bool, insertOk: bool, updateOk: bool, clock: int)

  /** Array.prototype.find on the id. */
  function FindById(todos: seq<Todo>, id: Id): (r: Option<Todo>)
    ensures r.Some? ==> r.value in todos && r.value.id == id
    ensures r.None? <==> forall i :: 0 <= i < |todos| ==> todos[i].id != id
  {
    if todos == [] then None
    else if todos[0].id == id then Some(todos[0])
    else FindById(todos[1..], id)
  }

  /** The duplicate test: some task belongs to definition rid and is due exactly at `due`. */
  predicate HasInstance(todos: seq<Todo>, rid: Id, due: int) {
    exists i :: 0 <= i < |todos| && todos[i].recurring_task_id == Some(rid) && todos[i].due_date == Some(due)
  }

  /** The reminder column of an instance due at `due`. */
  function ReminderColumn(rr: ReminderResult): Option<int> {
    if rr.ReminderAt? then Some(rr.at) else None
  }

  /** What an instance of definition r made from `template` for due date `due` is. */
  predicate IsInstanceOf(t: Todo, template: Todo, r: RecurringTask, due: int) {
    && t.title == template.title
    && t.description == template.description
    && t.priority == template.priority
    && t.category_id == template.category_id
    && t.tags == template.tags
    && t.user_id == template.user_id
    && t.due_date == Some(due)
    && t.reminder_time == ReminderColumn(ApplyReminderTime(due, r.reminder_time))
    && t.status == Pending
    && !t.is_completed
    && t.completed_at == None
    && t.recurring_task_id == Some(r.id)
  }

  /** createRecurringInstance: insert one instance row and prepend it to the list. An invalid
      reminder time or a failed insert throws and changes nothing. */
  function Materialize(w: World, template: Todo, r: RecurringTask, due: int, insertOk: bool): (s: Step)
    ensures s.Ok? <==> insertOk && !ApplyReminderTime(due, r.reminder_time).InvalidTime?
    ensures s.Threw? ==> s.at == w
    ensures s.Ok? ==>
      && |s.world.todos| == |w.todos| + 1
      && s.world.todos[1..] == w.todos
      && IsInstanceOf(s.world.todos[0], template, r, due)
      && CompletionConsistent(s.world.todos[0])
      && s.world.todos[0].id == w.nextId
      && s.world.rows == w.rows[w.nextId := s.world.todos[0]]
      && s.world.defs == w.defs
      && s.world.nextId == w.nextId + 1
    ensures s.Ok? && WorldValid(w) ==> w.nextId !in w.rows && WorldValid(s.world)
  {
    var rr := ApplyReminderTime(due, r.reminder_time);
    if rr.InvalidTime? || !insertOk then Threw(w)
    else
      var created := Todo(w.nextId, template.user_id, template.title, template.description, Pending,
                          template.priority, template.category_id, Some(r.id), template.tags,
                          Some(due), ReminderColumn(rr), false, None);
      Ok(World([created] + w.todos, w.rows[created.id := created], w.defs, w.nextId + 1))
  }

  /** Record a cursor on definition id (a failed or ignored update leaves the table alone). */
  function SetCursor(w: World, id: Id, cursor: int, generatedAt: Option<int>): (w': World)
    ensures w'.todos == w.todos && w'.rows == w.rows && w'.nextId == w.nextId
    ensures w'.defs.Keys == w.defs.Keys
    ensures id in w.defs ==> w'.defs[id].next_run_at == Some(cursor)
    ensures forall k :: k in w.defs && k != id ==> w'.defs[k] == w.defs[k]
    ensures WorldValid(w) ==> WorldValid(w')
  {
    if id !in w.defs then w
    else
      var d := w.defs[id];
      var stamp := if generatedAt.Some? then generatedAt else d.last_generated_at;
      w.(defs := w.defs[id := d.(next_run_at := Some(cursor), last_generated_at := stamp)])
  }

  /** The base date of a definition that has no cursor yet: start_date, or else the due date
      of its template. */
  function SeedBase(r: RecurringTask, template: Todo): Option<int> {
    if r.start_date.Some? then r.start_date else template.due_date
  }

  /** The cursor of a scheduled definition: the stored next_run_at, or one step after the base
      date, or with no base the first step after the clock. */
  function Cursor(r: RecurringTask, template: Todo, clock: int): (c: int)
    requires r.interval >= 1
    ensures r.next_run_at.None? && SeedBase(r, template).Some? ==> c >= SeedBase(r, template).value + MsPerDay
    ensures r.next_run_at.None? && SeedBase(r, template).None? ==> c > clock
  {
    if r.next_run_at.Some? then r.next_run_at.value
    else if SeedBase(r, template).Some? then AddInterval(SeedBase(r, template).value, r.frequency, r.interval)
    else AdvancePast(Period(r.frequency, r.interval), clock, clock)
  }

  /** The cursor stored after a due cursor has been handled: one step, then on to the first step
      strictly after the clock. */
  function FollowingCursor(r: RecurringTask, cursor: int, clock: int): (c: int)
    requires r.interval >= 1
    ensures c > clock && c > cursor
  {
    AdvancePast(Period(r.frequency, r.interval), AddInterval(cursor, r.frequency, r.interval), clock)
  }

  /** A definition the scan can step: the stepping loops only end for an interval of at least 1. */
  predicate Steppable(r: RecurringTask) {
    r.mode.Scheduled? ==> r.interval >= 1
  }

  /** The scan's body for one definition r, listed at the start of the scan; `snapshot` is the
      task list the scan was started with and `now` its clock reading. */
  function ScanStep(w: World, snapshot: seq<Todo>, now: int, r: RecurringTask, e: ScanEnv): (s: Step)
    requires Steppable(r)
    ensures WorldValid(w) ==> WorldValid(Outcome(s))
  {
    if !r.mode.Scheduled? then Ok(w)
    else match FindById(snapshot, r.todo_id)
      case None => Ok(w)
      case Some(template) =>
        var cursor := Cursor(r, template, e.clock);
        if cursor <= now then
          var created := if HasInstance(snapshot, r.id, cursor) then Ok(w)
                         else Materialize(w, template, r, cursor, e.insertOk);
          match created
          case Threw(_) => created
          case Ok(w1) =>
            if e.updateOk then Ok(SetCursor(w1, r.id, FollowingCursor(r, cursor, e.clock), Some(e.clock)))
            else Ok(w1)
        else if r.next_run_at.None? && e.updateOk then Ok(SetCursor(w, r.id, cursor, None))
        else Ok(w)
  }

  /** The for-loop of generateScheduledTasks over the listed definitions, one environment each;
      an exception aborts the definitions that remain. */
  function Scan(w: World, snapshot: seq<Todo>, now: int, listed: seq<RecurringTask>, envs: seq<ScanEnv>): (w': World)
    requires |envs| == |listed|
    requires forall i :: 0 <= i < |listed| ==> Steppable(listed[i])
    ensures WorldValid(w) ==> WorldValid(w')
    decreases |listed|
  {
    if listed == [] then w
    else match ScanStep(w, snapshot, now, listed[0], envs[0])
      case Threw(w1) => w1
      case Ok(w1) => Scan(w1, snapshot, now, listed[1..], envs[1..])
  }

  /** handleAfterCompletion's base date: the todo's due date, else the definition's start date,
      else the completion instant. */
  function CompletionBase(todo: Todo, r: RecurringTask, completedAt: int): int {
    if todo.due_date.Some? then todo.due_date.value
    else if r.start_date.Some? then r.start_date.value
    else completedAt
  }

  /** The definition handleAfterCompletion acts on, if it acts at all. */
  predicate CompletionApplies(w: World, todo: Todo, readOk: bool) {
    && todo.recurring_task_id.Some?
    && readOk
    && todo.recurring_task_id.value in w.defs
    && w.defs[todo.recurring_task_id.value].mode.AfterCompletion?
  }

  /** Each definition row is stored under its own id. */
  predicate DefsKeyed(defs: map<Id, RecurringTask>) {
    forall k :: k in defs ==> defs[k].id == k
  }

  /** Every after-completion definition steps forward (interval at least 1). */
  predicate CompletionDefsSteppable(defs: map<Id, RecurringTask>) {
    forall k :: k in defs && defs[k].mode.AfterCompletion? ==> defs[k].interval >= 1
  }

  /** handleAfterCompletion for `todo` completed at `completedAt`. */
  function CompletionStep(w: World, todo: Todo, completedAt: int, e: CompletionEnv): (s: Step)
    requires CompletionDefsSteppable(w.defs)
    ensures WorldValid(w) ==> WorldValid(Outcome(s))
  {
    if !CompletionApplies(w, todo, e.readOk) then Ok(w)
    else
      var r := w.defs[todo.recurring_task_id.value];
      var next := NextAfter(Period(r.frequency, r.interval), CompletionBase(todo, r, completedAt), completedAt);
      var created := if HasInstance(w.todos, r.id, next) then Ok(w) else Materialize(w, todo, r, next, e.insertOk);
      match created
      case Threw(_) => created
      case Ok(w1) => if e.updateOk then Ok(SetCursor(w1, r.id, next, Some(e.clock))) else Ok(w1)
  }

  // ---------------------------------------------------------------------------------------
  // Properties of the scan

  /** The list after a step is the list before, with at most one new task in front. */
  predicate GrewByAtMostOne(before: seq<Todo>, after: seq<Todo>) {
    || after == before
    || (|after| == |before| + 1 && after[1..] == before)
  }

  /** One definition yields at most one instance per scan, and a thrown step keeps the world of
      the moment it threw. */
  lemma ScanStepAtMostOne(w: World, snapshot: seq<Todo>, now: int, r: RecurringTask, e: ScanEnv)
    requires Steppable(r)
    ensures var s := ScanStep(w, snapshot, now, r, e);
            && (s.Ok? ==> GrewByAtMostOne(w.todos, s.world.todos))
            && (s.Threw? ==> s.at == w)
  {
  }

  /** A definition that is not scheduled, or whose template is not in the snapshot, is skipped. */
  lemma ScanSkips(w: World, snapshot: seq<Todo>, now: int, r: RecurringTask, e: ScanEnv)
    requires Steppable(r)
    requires !r.mode.Scheduled? || forall i :: 0 <= i < |snapshot| ==> snapshot[i].id != r.todo_id
    ensures ScanStep(w, snapshot, now, r, e) == Ok(w)
  {
  }

  /** A due cursor already matched by a task of the snapshot creates nothing. */
  lemma ScanSuppressesDuplicate(w: World, snapshot: seq<Todo>, now: int, r: RecurringTask, e: ScanEnv, template: Todo)
    requires Steppable(r) && r.mode.Scheduled?
    requires FindById(snapshot, r.todo_id) == Some(template)
    requires Cursor(r, template, e.clock) <= now
    requires HasInstance(snapshot, r.id, Cursor(r, template, e.clock))
    ensures ScanStep(w, snapshot, now, r, e).Ok?
    ensures ScanStep(w, snapshot, now, r, e).world.todos == w.todos
  {
  }

  /** A due cursor not matched in the snapshot creates exactly the instance for that cursor (or
      throws). */
  lemma ScanCreatesDueInstance(w: World, snapshot: seq<Todo>, now: int, r: RecurringTask, e: ScanEnv, template: Todo)
    requires Steppable(r) && r.mode.Scheduled?
    requires FindById(snapshot, r.todo_id) == Some(template)
    requires Cursor(r, template, e.clock) <= now
    requires !HasInstance(snapshot, r.id, Cursor(r, template, e.clock))
    ensures var s := ScanStep(w, snapshot, now, r, e);
            s.Ok? ==> |s.world.todos| == |w.todos| + 1 && IsInstanceOf(s.world.todos[0], template, r, Cursor(r, template, e.clock))
  {
  }

  /** After a step whose cursor update went through, the definition's stored cursor is strictly
      after the scan's clock reading `now`, whichever branch ran. */
  lemma ScanStepCursorInFuture(w: World, snapshot: seq<Todo>, now: int, r: RecurringTask, e: ScanEnv)
    requires Steppable(r) && r.mode.Scheduled?
    requires r.id in w.defs && w.defs[r.id] == r
    requires now <= e.clock && e.updateOk
    requires FindById(snapshot, r.todo_id).Some?
    ensures var s := ScanStep(w, snapshot, now, r, e);
            s.Ok? ==> s.world.defs[r.id].next_run_at.Some? && s.world.defs[r.id].next_run_at.value > now
  {
    var template := FindById(snapshot, r.todo_id).value;
    var cursor := Cursor(r, template, e.clock);
    if cursor <= now && !HasInstance(snapshot, r.id, cursor) {
      var m := Materialize(w, template, r, cursor, e.insertOk);
      if m.Ok? {
        assert m.world.defs == w.defs;
      }
    }
  }

  /** A not-yet-due cursor is written back only when none was stored; a stored one is left as
      it is, and either way no task is created. */
  lemma ScanNotDue(w: World, snapshot: seq<Todo>, now: int, r: RecurringTask, e: ScanEnv, template: Todo)
    requires Steppable(r) && r.mode.Scheduled?
    requires FindById(snapshot, r.todo_id) == Some(template)
    requires Cursor(r, template, e.clock) > now
    ensures var s := ScanStep(w, snapshot, now, r, e);
            && s.Ok? && s.world.todos == w.todos && s.world.rows == w.rows
            && (r.next_run_at.Some? || !e.updateOk ==> s.world == w)
            && (r.next_run_at.None? && e.updateOk ==> s.world == SetCursor(w, r.id, Cursor(r, template, e.clock), None))
  {
  }

  /** Running a step again at the same instant, over the definition as the first step left it,
      creates nothing and changes nothing: the stored cursor is no longer due. */
  lemma RescanIsQuiet(w: World, snapshot: seq<Todo>, now: int, r: RecurringTask, e: ScanEnv,
                      snapshot2: seq<Todo>, e2: ScanEnv)
    requires Steppable(r) && r.mode.Scheduled?
    requires r.id in w.defs && w.defs[r.id] == r
    requires now <= e.clock && e.updateOk
    requires FindById(snapshot, r.todo_id).Some?
    requires ScanStep(w, snapshot, now, r, e).Ok?
    ensures var w1 := ScanStep(w, snapshot, now, r, e).world;
            r.id in w1.defs && Steppable(w1.defs[r.id]) && ScanStep(w1, snapshot2, now, w1.defs[r.id], e2) == Ok(w1)
  {
    ScanStepCursorInFuture(w, snapshot, now, r, e);
    var template := FindById(snapshot, r.todo_id).value;
    var cursor := Cursor(r, template, e.clock);
    if cursor <= now && !HasInstance(snapshot, r.id, cursor) {
      var m := Materialize(w, template, r, cursor, e.insertOk);
      assert m.world.defs == w.defs;
    }
  }

  /** Backlog collapse: a daily definition whose stored cursor is days overdue yields one
      instance, for the overdue cursor itself, and the cursor skips to the first day boundary
      (at the cursor's time of day) strictly after the clock. */
  lemma DailyBacklogCollapses(w: World, snapshot: seq<Todo>, now: int, r: RecurringTask, e: ScanEnv)
    requires r.mode.Scheduled? && r.frequency.Daily? && r.interval == 1
    requires r.id in w.defs && w.defs[r.id] == r
    requires r.next_run_at.Some? && r.next_run_at.value <= now <= e.clock && e.updateOk
    requires FindById(snapshot, r.todo_id).Some?
    ensures var s := ScanStep(w, snapshot, now, r, e);
            var c := r.next_run_at.value;
            s.Ok? ==>
              && GrewByAtMostOne(w.todos, s.world.todos)
              && s.world.defs[r.id].next_run_at == Some(c + ((e.clock - c) / MsPerDay + 1) * MsPerDay)
  {
    var template := FindById(snapshot, r.todo_id).value;
    var c := r.next_run_at.value;
    if !HasInstance(snapshot, r.id, c) {
      var m := Materialize(w, template, r, c, e.insertOk);
      if m.Ok? {
        assert m.world.defs == w.defs;
      }
    }
    var n1 := AddInterval(c, Daily, 1);
    assert n1 == c + MsPerDay;
    if n1 <= e.clock {
      DailyAdvance(n1, e.clock);
      assert (e.clock - n1) / MsPerDay == (e.clock - c) / MsPerDay - 1;
    } else {
      assert (e.clock - c) / MsPerDay == 0;
    }
  }

  /** `a` is the tail of `b`: `b` is some new tasks followed by `a`. */
  predicate EndsWith(b: seq<Todo>, a: seq<Todo>) {
    |a| <= |b| && b[|b| - |a|..] == a
  }

  lemma GrewEndsWith(before: seq<Todo>, after: seq<Todo>)
    requires GrewByAtMostOne(before, after)
    ensures EndsWith(after, before) && |after| <= |before| + 1
  {
  }

  lemma EndsWithTransitive(c: seq<Todo>, b: seq<Todo>, a: seq<Todo>)
    requires EndsWith(c, b) && EndsWith(b, a)
    ensures EndsWith(c, a)
  {
    assert c[|c| - |a|..] == c[|c| - |b|..][|b| - |a|..];
  }

  /** A scan whose first step goes through goes on with the rest of the definitions. */
  lemma ScanOkStep(w: World, snapshot: seq<Todo>, now: int, listed: seq<RecurringTask>, envs: seq<ScanEnv>)
    requires |envs| == |listed| && listed != []
    requires forall i :: 0 <= i < |listed| ==> Steppable(listed[i])
    requires ScanStep(w, snapshot, now, listed[0], envs[0]).Ok?
    ensures forall i :: 0 <= i < |listed[1..]| ==> Steppable(listed[1..][i])
    ensures Scan(w, snapshot, now, listed, envs)
            == Scan(ScanStep(w, snapshot, now, listed[0], envs[0]).world, snapshot, now, listed[1..], envs[1..])
  {
  }

  /** The new tasks a scan puts in front of the list: the list after a scan is some new tasks
      followed by the list before, and there are at most as many as definitions listed. */
  lemma {:induction false} ScanAtMostOnePerDefinition(w: World, snapshot: seq<Todo>, now: int, listed: seq<RecurringTask>, envs: seq<ScanEnv>)
    requires |envs| == |listed|
    requires forall i :: 0 <= i < |listed| ==> Steppable(listed[i])
    ensures var w' := Scan(w, snapshot, now, listed, envs);
            EndsWith(w'.todos, w.todos) && |w'.todos| <= |w.todos| + |listed|
    decreases |listed|
  {
    if listed != [] {
      ScanStepAtMostOne(w, snapshot, now, listed[0], envs[0]);
      var s := ScanStep(w, snapshot, now, listed[0], envs[0]);
      if s.Ok? {
        var w1 := s.world;
        ScanOkStep(w, snapshot, now, listed, envs);
        ScanAtMostOnePerDefinition(w1, snapshot, now, listed[1..], envs[1..]);
        GrewEndsWith(w.todos, w1.todos);
        EndsWithTransitive(Scan(w1, snapshot, now, listed[1..], envs[1..]).todos, w1.todos, w.todos);
      }
    }
  }

  /** A scan in which every scheduled definition already holds a cursor after `now` changes
      nothing at all. */
  lemma {:induction false} ScanQuietWhenNothingDue(w: World, snapshot: seq<Todo>, now: int, listed: seq<RecurringTask>, envs: seq<ScanEnv>)
    requires |envs| == |listed|
    requires forall i :: 0 <= i < |listed| ==> Steppable(listed[i])
    requires forall i :: 0 <= i < |listed| && listed[i].mode.Scheduled? ==>
               listed[i].next_run_at.Some? && listed[i].next_run_at.value > now
    ensures Scan(w, snapshot, now, listed, envs) == w
    decreases |listed|
  {
    if listed != [] {
      assert ScanStep(w, snapshot, now, listed[0], envs[0]) == Ok(w);
      ScanQuietWhenNothingDue(w, snapshot, now, listed[1..], envs[1..]);
    }
  }

  // ---------------------------------------------------------------------------------------
  // Properties of the after-completion rule

  /** The due date handleAfterCompletion computes for `todo` under definition r. */
  function CompletionNext(todo: Todo, r: RecurringTask, completedAt: int): (next: int)
    requires r.interval >= 1
    ensures next > completedAt
    ensures next >= CompletionBase(todo, r, completedAt) + MsPerDay
  {
    NextAfter(Period(r.frequency, r.interval), CompletionBase(todo, r, completedAt), completedAt)
  }

  /** Nothing happens unless the todo names a definition that can be read and is in
      after-completion mode. */
  lemma CompletionIgnoresOthers(w: World, todo: Todo, completedAt: int, e: CompletionEnv)
    requires CompletionDefsSteppable(w.defs)
    requires !CompletionApplies(w, todo, e.readOk)
    ensures CompletionStep(w, todo, completedAt, e) == Ok(w)
  {
  }

  /** When the rule applies, the instance it creates copies the completed todo and is due
      strictly after the completion; the cursor is set to that due date whether or not an
      instance was created; an existing task due then suppresses creation. */
  lemma CompletionOutcome(w: World, todo: Todo, completedAt: int, e: CompletionEnv)
    requires CompletionDefsSteppable(w.defs) && DefsKeyed(w.defs)
    requires CompletionApplies(w, todo, e.readOk)
    ensures var r := w.defs[todo.recurring_task_id.value];
            var next := CompletionNext(todo, r, completedAt);
            var s := CompletionStep(w, todo, completedAt, e);
            && next > completedAt
            && (HasInstance(w.todos, r.id, next) ==> s.Ok? && s.world.todos == w.todos)
            && (!HasInstance(w.todos, r.id, next) && s.Ok? ==>
                  |s.world.todos| == |w.todos| + 1 && s.world.todos[1..] == w.todos
                  && IsInstanceOf(s.world.todos[0], todo, r, next))
            && (s.Ok? && e.updateOk ==> s.world.defs[r.id].next_run_at == Some(next))
            && (s.Ok? && !e.updateOk ==> s.world.defs == w.defs)
  {
    var r := w.defs[todo.recurring_task_id.value];
    var next := CompletionNext(todo, r, completedAt);
    if !HasInstance(w.todos, r.id, next) {
      var m := Materialize(w, todo, r, next, e.insertOk);
      if m.Ok? {
        assert m.world.defs == w.defs;
      }
    }
  }

  /** When the rule applies, it throws exactly when it has to create an instance and the insert
      fails or the reminder time is invalid, and a throw leaves the world as it was. */
  lemma CompletionThrows(w: World, todo: Todo, completedAt: int, e: CompletionEnv)
    requires CompletionDefsSteppable(w.defs)
    requires CompletionApplies(w, todo, e.readOk)
    ensures var r := w.defs[todo.recurring_task_id.value];
            var next := CompletionNext(todo, r, completedAt);
            var s := CompletionStep(w, todo, completedAt, e);
            && (s.Threw? <==> !HasInstance(w.todos, r.id, next)
                              && (!e.insertOk || ApplyReminderTime(next, r.reminder_time).InvalidTime?))
            && (s.Threw? ==> s.at == w)
  {
  }

  /** Completing the same todo at the same instant a second time creates no second instance:
      the first call left a task due at the computed date (or one was there already). */
  lemma CompletionIdempotent(w: World, todo: Todo, completedAt: int, e: CompletionEnv, e2: CompletionEnv)
    requires CompletionDefsSteppable(w.defs) && DefsKeyed(w.defs)
    requires CompletionApplies(w, todo, e.readOk)
    requires CompletionStep(w, todo, completedAt, e).Ok?
    ensures var w1 := CompletionStep(w, todo, completedAt, e).world;
            && CompletionDefsSteppable(w1.defs)
            && CompletionStep(w1, todo, completedAt, e2).Ok?
            && CompletionStep(w1, todo, completedAt, e2).world.todos == w1.todos
  {
    var rid := todo.recurring_task_id.value;
    var r := w.defs[rid];
    var next := CompletionNext(todo, r, completedAt);
    var w1 := CompletionStep(w, todo, completedAt, e).world;
    var wc := if HasInstance(w.todos, r.id, next) then w else Materialize(w, todo, r, next, e.insertOk).world;
    assert wc.defs == w.defs;
    assert HasInstance(wc.todos, rid, next) by {
      if !HasInstance(w.todos, r.id, next) {
        assert wc.todos[0].recurring_task_id == Some(rid) && wc.todos[0].due_date == Some(next);
      }
    }
    assert w1.todos == wc.todos;
    assert forall k :: k in w1.defs ==> k in w.defs && w1.defs[k].mode == w.defs[k].mode && w1.defs[k].interval == w.defs[k].interval;
    if CompletionApplies(w1, todo, e2.readOk) {
      var r1 := w1.defs[rid];
      assert r1.frequency == r.frequency && r1.interval == r.interval && r1.start_date == r.start_date && r1.id == r.id;
      assert CompletionNext(todo, r1, completedAt) == next;
    }
  }
}
