/** The recurrence dialog (src/components/todos/RecurringTaskModal.tsx): its default values, the
    values it opens with, field edits, and what Save and Clear hand back to the task form. Date
    controls are read as instants (None for an empty control); the interval control as the result
    of JavaScript's Number. */
module RecurrenceModal {
  import opened Types
  import opened Reminder

  datatype RecurrenceValues = RecurrenceValues(
    mode: Mode,
    frequency: Frequency,
    interval: JsNumber,
    startDate: Option<int>,
    reminderTime: string)

  /** Scheduled, daily, every 1, no start date, no reminder time. */
  const Defaults: RecurrenceValues := RecurrenceValues(Scheduled, Daily, Num(1), None, "")

  /** The values the dialog shows for the recurrence currently chosen (`value ?? defaultValues`);
      the dialog re-initialises to this whenever that recurrence changes. */
  function InitialValues(value: Option<RecurrenceValues>): (v: RecurrenceValues)
    ensures value.Some? ==> v == value.value
    ensures value.None? ==> v.mode.Scheduled? && v.frequency.Daily? && v.interval == Num(1)
                            && v.startDate.None? && v.reminderTime == ""
  {
    value.GetOr(Defaults)
  }

  /** One control of the dialog changed (updateField). */
  datatype Edit =
    | SetMode(mode: Mode)
    | SetFrequency(frequency: Frequency)
    | SetInterval(interval: JsNumber)
    | SetStartDate(startDate: Option<int>)
    | SetReminderTime(reminderTime: string)

  /** updateField: the edited field takes the new value and every other field is kept. */
  function ApplyEdit(v: RecurrenceValues, e: Edit): (r: RecurrenceValues)
    ensures r.mode == (if e.SetMode? then e.mode else v.mode)
    ensures r.frequency == (if e.SetFrequency? then e.frequency else v.frequency)
    ensures r.interval == (if e.SetInterval? then e.interval else v.interval)
    ensures r.startDate == (if e.SetStartDate? then e.startDate else v.startDate)
    ensures r.reminderTime == (if e.SetReminderTime? then e.reminderTime else v.reminderTime)
  {
    match e
    case SetMode(m) => v.(mode := m)
    case SetFrequency(f) => v.(frequency := f)
    case SetInterval(n) => v.(interval := n)
    case SetStartDate(d) => v.(startDate := d)
    case SetReminderTime(t) => v.(reminderTime := t)
  }

  /** Math.max(1, Number(x) || 1): NaN and 0 fall back to 1, and anything below 1 is raised to 1. */
  function ClampInterval(x: JsNumber): (n: int)
    ensures n >= 1
    ensures x.Num? && x.value >= 1 ==> n == x.value
    ensures x.NaN? || x.value < 1 ==> n == 1
  {
    var y := if x.NaN? || x.value == 0 then 1 else x.value;
    if y >= 1 then y else 1
  }

  /** Values as the dialog hands them out on Save: the interval is a number of at least 1. */
  predicate SavedByModal(v: RecurrenceValues) {
    v.interval.Num? && v.interval.value >= 1
  }

  datatype Action = Save | Clear

  /** What the dialog passes to onSave: Clear passes null, which removes the recurrence; Save
      passes the values with only the interval rewritten by the clamp. */
  function Saved(action: Action, v: RecurrenceValues): (r: Option<RecurrenceValues>)
    ensures r.None? <==> action.Clear?
    ensures r.Some? ==> SavedByModal(r.value)
    ensures r.Some? ==> r.value.mode == v.mode && r.value.frequency == v.frequency
                        && r.value.startDate == v.startDate && r.value.reminderTime == v.reminderTime
    ensures r.Some? && SavedByModal(v) ==> r.value == v
  {
    match action
    case Clear => None
    case Save => Some(v.(interval := Num(ClampInterval(v.interval))))
  }

  /** Saving is idempotent: opening the dialog on what was saved and saving again without edits
      hands back the same values; after Clear the dialog opens on the defaults. */
  lemma ReopenAndSaveAgain(action: Action, v: RecurrenceValues)
    ensures var r := Saved(action, v);
            && (r.Some? ==> Saved(Save, InitialValues(r)) == r)
            && (r.None? ==> InitialValues(r) == Defaults)
  {
  }
}
