/** The new-task form (src/components/todos/TodoForm.tsx): the typing rule that derives priority and
    category from title markers, the marker stripping on submit, the mapping of empty controls to
    null, and the form's state across edits and submits. '!' or the full-width '！' marks a task
    urgent; '#' or the full-width '＃' asks for a category. */
module TodoForm {
  import opened Types
  import opened Text
  import opened Reminder
  import opened RecurrenceModal
  import opened Mutations

  predicate StartsWithBang(s: string) {
    |s| > 0 && (s[0] == '!' || s[0] == '\U{FF01}')
  }

  predicate StartsWithHash(s: string) {
    |s| > 0 && (s[0] == '#' || s[0] == '\U{FF03}')
  }

  datatype Processed = Processed(title: string, priority: Priority)

  /** A marker and the white space after it removed: `slice(1).trimStart()`. */
  function StripMarker(t: string): (r: string)
    requires t != []
    ensures IsSuffix(r, t)
    ensures r == [] || !IsWhiteSpace(r[0])
  {
    var u := TrimStart(t[1..]);
    assert IsSuffix(t[1..], t);
    SuffixTransitive(u, t[1..], t);
    u
  }

  /** The title and priority handleSubmit sends: leading white space goes; one leading '!'
      (then white space) goes and forces High; then one leading '#' (then white space) goes. */
  function ProcessTitle(raw: string, chosen: Priority): (r: Processed)
    ensures IsSuffix(r.title, raw)
    ensures r.title == [] || !IsWhiteSpace(r.title[0])
    ensures r.priority == (if StartsWithBang(TrimStart(raw)) then High else chosen)
  {
    var t0 := TrimStart(raw);
    var bang := StartsWithBang(t0);
    var t1 := if bang then StripMarker(t0) else t0;
    assert IsSuffix(t1, t0);
    SuffixTransitive(t1, t0, raw);
    var t2 := if StartsWithHash(t1) then StripMarker(t1) else t1;
    assert IsSuffix(t2, t1);
    SuffixTransitive(t2, t1, raw);
    Processed(t2, if bang then High else chosen)
  }

  /** Markers are tested '!' first, then '#', and each at most once: "#!x" keeps its '!' and
      does not force High, and "!!x" loses only one '!'. */
  lemma MarkersStrippedOnceInOrder(rest: string, chosen: Priority)
    ensures ProcessTitle(['#', '!'] + rest, chosen) == Processed(['!'] + rest, chosen)
    ensures ProcessTitle(['!', '!'] + rest, chosen) == Processed(['!'] + rest, High)
  {
    TrimStartFixed(['#', '!'] + rest);
    assert (['#', '!'] + rest)[1..] == ['!'] + rest;
    TrimStartFixed(['!'] + rest);
    TrimStartFixed(['!', '!'] + rest);
    assert (['!', '!'] + rest)[1..] == ['!'] + rest;
  }

  /** The blank check runs on the raw title, before stripping: a title made of a marker alone is
      not blank, and is sent as an empty title. */
  lemma MarkerOnlyTitleIsSentEmpty(chosen: Priority)
    ensures !IsBlank("!")
    ensures ProcessTitle("!", chosen) == Processed("", High)
  {
    assert !IsWhiteSpace("!"[0]);
    TrimStartFixed("!");
  }

  /** `s || null`: the empty string becomes null. */
  function NullIfEmpty(s: string): (r: Option<string>)
    ensures r.None? <==> s == ""
    ensures r.Some? ==> r.value == s
  {
    if s == "" then None else Some(s)
  }

  /** The recurrence argument of addTodo built from the dialog's saved values. */
  function RecurrenceArgument(v: RecurrenceValues): (r: RecurrenceInput)
    requires SavedByModal(v)
    ensures r.mode == v.mode && r.frequency == v.frequency && r.interval == v.interval.value
    ensures r.startDate == v.startDate
    ensures r.reminderTime == NullIfEmpty(v.reminderTime)
  {
    RecurrenceInput(v.mode, v.frequency, v.interval.value, v.startDate, NullIfEmpty(v.reminderTime))
  }

  /** handleSubmit: nothing when the raw title is blank; otherwise the argument of addTodo. */
  function SubmitPayload(title: string, description: string, priority: Priority, dueDate: Option<int>,
                         categoryId: Option<Id>, recurrence: Option<RecurrenceValues>): (r: Option<NewTodo>)
    requires recurrence.Some? ==> SavedByModal(recurrence.value)
    ensures r.None? <==> IsBlank(title)
    ensures r.Some? ==>
      && r.value.title == ProcessTitle(title, priority).title
      && r.value.priority == ProcessTitle(title, priority).priority
      && r.value.description == NullIfEmpty(description)
      && r.value.due_date == dueDate && r.value.category_id == categoryId
      && r.value.recurring_task_id.None? && r.value.tags == [] && r.value.reminder_time.None?
      && r.value.status == Pending
      && (r.value.recurrence.None? <==> recurrence.None?)
      && (recurrence.Some? ==> r.value.recurrence == Some(RecurrenceArgument(recurrence.value)))
  {
    TrimEmptyIffBlank(title);
    if Trim(title) == [] then None
    else
      var processed := ProcessTitle(title, priority);
      var rec := if recurrence.Some? then Some(RecurrenceArgument(recurrence.value)) else None;
      Some(NewTodo(processed.title, NullIfEmpty(description), Pending, processed.priority, categoryId,
                   None, [], dueDate, None, rec))
  }

  /** The recurrence part of a form whose dialog was last closed with Clear is null in the
      payload; a saved interval always reaches addTodo as a whole number of at least 1, so the
      stepping loops of the store terminate. */
  lemma SubmittedRecurrenceSteps(title: string, description: string, priority: Priority, dueDate: Option<int>,
                                 categoryId: Option<Id>, action: Action, v: RecurrenceValues)
    requires !IsBlank(title)
    ensures var p := SubmitPayload(title, description, priority, dueDate, categoryId, Saved(action, v));
            && p.Some?
            && (action.Clear? ==> p.value.recurrence.None?)
            && (action.Save? ==> p.value.recurrence.Some? && p.value.recurrence.value.interval >= 1)
            && AddSteppable(p.value)
  {
  }

  /** The priority and category controls. */
  datatype Selection = Selection(priority: Priority, categoryId: Option<Id>)

  /** One run of the typing effect. An empty title resets the priority to the default and stops.
      Otherwise a leading '!' sets High, and a High without it reverts to the default; a leading
      '#' selects the first category when none is selected and there is one. */
  function TypingEffect(title: string, sel: Selection, defaultPriority: Priority, categories: seq<Id>): Selection {
    if title == [] then sel.(priority := defaultPriority)
    else
      var t := TrimStart(title);
      var p := if StartsWithBang(t) then High else if sel.priority == High then defaultPriority else sel.priority;
      var c := if StartsWithHash(t) && |categories| > 0 && sel.categoryId.None? then Some(categories[0]) else sel.categoryId;
      Selection(p, c)
  }

  /** The effect re-runs when the priority or category it sets changes; a second run changes
      nothing, so the controls settle after one run. */
  lemma TypingEffectSettles(title: string, sel: Selection, defaultPriority: Priority, categories: seq<Id>)
    ensures var once := TypingEffect(title, sel, defaultPriority, categories);
            TypingEffect(title, once, defaultPriority, categories) == once
  {
  }

  /** What one run of the effect decides: the empty title resets to the default; '!' forces
      High; a High under a title without '!' goes back to the default, whether it came from a
      removed marker or was chosen by hand; '#' fills an empty category with the first one. */
  lemma TypingEffectRules(title: string, sel: Selection, defaultPriority: Priority, categories: seq<Id>)
    ensures var r := TypingEffect(title, sel, defaultPriority, categories);
            && (title == [] ==> r == sel.(priority := defaultPriority))
            && (title != [] && StartsWithBang(TrimStart(title)) ==> r.priority == High)
            && (title != [] && !StartsWithBang(TrimStart(title)) && sel.priority == High ==> r.priority == defaultPriority)
            && (title != [] && !StartsWithBang(TrimStart(title)) && sel.priority != High ==> r.priority == sel.priority)
            && ((title != [] && StartsWithHash(TrimStart(title)) && |categories| > 0 && sel.categoryId.None?)
                  ==> r.categoryId == Some(categories[0]))
            && (sel.categoryId.Some? ==> r.categoryId == sel.categoryId)
            && (title == [] || !StartsWithHash(TrimStart(title)) || |categories| == 0 ==> r.categoryId == sel.categoryId)
  {
  }

  /** The form's component state. The recurrence is only ever set from what the dialog saves. */
  class FormState {
    var title: string
    var description: string
    var selection: Selection
    var dueDate: Option<int>
    var recurrence: Option<RecurrenceValues>
    var isOpen: bool
    const defaultPriority: Priority
    const defaultDate: Option<int>

    ghost predicate Valid()
      reads this
    {
      recurrence.Some? ==> SavedByModal(recurrence.value)
    }

    constructor(defaultPriority: Priority, defaultDate: Option<int>)
      ensures Valid()
      ensures this.defaultPriority == defaultPriority && this.defaultDate == defaultDate
      ensures title == "" && description == "" && selection == Selection(defaultPriority, None)
      ensures dueDate == defaultDate && recurrence.None? && !isOpen
    {
      this.defaultPriority := defaultPriority;
      this.defaultDate := defaultDate;
      title := "";
      description := "";
      selection := Selection(defaultPriority, None);
      dueDate := defaultDate;
      recurrence := None;
      isOpen := false;
    }

    /** The typing effect, run after a change to the title, priority or category. */
    method RunTypingEffect(categories: seq<Id>)
      modifies this
      ensures selection == TypingEffect(title, old(selection), defaultPriority, categories)
      ensures title == old(title) && description == old(description) && dueDate == old(dueDate)
      ensures recurrence == old(recurrence) && isOpen == old(isOpen)
    {
      if title == [] {
        selection := selection.(priority := defaultPriority);
        return;
      }
      var trimmed := TrimStart(title);
      if StartsWithBang(trimmed) {
        selection := selection.(priority := High);
      } else if selection.priority == High {
        selection := selection.(priority := defaultPriority);
      }
      if StartsWithHash(trimmed) && |categories| > 0 && selection.categoryId.None? {
        selection := selection.(categoryId := Some(categories[0]));
      }
    }

    /** Typing into the title control. */
    method TypeTitle(newTitle: string, categories: seq<Id>)
      modifies this
      requires Valid()
      ensures Valid()
      ensures title == newTitle
      ensures selection == TypingEffect(newTitle, old(selection), defaultPriority, categories)
      ensures description == old(description) && dueDate == old(dueDate)
      ensures recurrence == old(recurrence) && isOpen == old(isOpen)
    {
      title := newTitle;
      RunTypingEffect(categories);
    }

    /** Choosing a priority in the priority control. */
    method ChoosePriority(p: Priority, categories: seq<Id>)
      modifies this
      requires Valid()
      ensures Valid()
      ensures title == old(title)
      ensures selection == TypingEffect(title, old(selection).(priority := p), defaultPriority, categories)
      ensures description == old(description) && dueDate == old(dueDate)
      ensures recurrence == old(recurrence) && isOpen == old(isOpen)
    {
      selection := selection.(priority := p);
      RunTypingEffect(categories);
    }

    /** Choosing a category in the category control (None for the empty choice). */
    method ChooseCategory(c: Option<Id>, categories: seq<Id>)
      modifies this
      requires Valid()
      ensures Valid()
      ensures title == old(title)
      ensures selection == TypingEffect(title, old(selection).(categoryId := c), defaultPriority, categories)
      ensures description == old(description) && dueDate == old(dueDate)
      ensures recurrence == old(recurrence) && isOpen == old(isOpen)
    {
      selection := selection.(categoryId := c);
      RunTypingEffect(categories);
    }

    /** The recurrence dialog was closed with Save or Clear. */
    method CloseRecurrenceDialog(action: Action, v: RecurrenceValues)
      modifies this
      ensures Valid()
      ensures recurrence == Saved(action, v)
      ensures title == old(title) && selection == old(selection)
      ensures description == old(description) && dueDate == old(dueDate) && isOpen == old(isOpen)
    {
      recurrence := Saved(action, v);
    }

    /** resetForm: every field back to its initial value, the dialog closed. */
    method ResetForm()
      modifies this
      ensures Valid()
      ensures title == "" && description == "" && selection == Selection(defaultPriority, None)
      ensures dueDate == defaultDate && recurrence.None? && !isOpen
    {
      title := "";
      description := "";
      selection := Selection(defaultPriority, None);
      dueDate := defaultDate;
      recurrence := None;
      isOpen := false;
    }

    /** handleSubmit: returns the argument passed to addTodo, None when the title is blank and the
        form is left as it is; after a payload the form is reset. */
    method Submit() returns (payload: Option<NewTodo>)
      modifies this
      requires Valid()
      ensures Valid()
      ensures payload == SubmitPayload(old(title), old(description), old(selection).priority, old(dueDate),
                                       old(selection).categoryId, old(recurrence))
      ensures payload.None? <==> IsBlank(old(title))
      ensures payload.None? ==> title == old(title) && description == old(description) && selection == old(selection)
                                && dueDate == old(dueDate) && recurrence == old(recurrence) && isOpen == old(isOpen)
      ensures payload.Some? ==> title == "" && description == "" && selection == Selection(defaultPriority, None)
                                && dueDate == defaultDate && recurrence.None? && !isOpen
    {
      payload := SubmitPayload(title, description, selection.priority, dueDate, selection.categoryId, recurrence);
      if payload.None? {
        return;
      }
      ResetForm();
    }
  }
}
