# A verified model of the todo-app recurrence engine and task store

This project is a Dafny model of the task store and recurrence engine of the todo-app web application (`src/hooks/useTodos.ts`), with proofs about it. It also models the smaller rules around them:

- the recurrence dialog;
- the new-task form's title markers;
- the reminder check;
- the task list and statistics panels;
- the credential checks of the sign-in form, the account dialog and the settings page.

**Instants and the calendar.** Instants are integers: milliseconds in one local time frame with no daylight-saving shifts. Module `Calendar` is a proleptic Gregorian calendar. It provides date-fns `addDays`, `addWeeks` and `addMonths`; `addMonths` keeps the time of day and clips the day to the length of the target month.

**Store and database.** Module `Recurrence` and module `Mutations` describe each store operation as a function from one `World` to the next. A `World` holds:

- the in-memory task list;
- the rows of the `todos` and `recurring_tasks` tables;
- the next id the database hands out.

The database invariant `WorldValid` says that every row and every definition is stored under its own id, and that every id in use is below the next id, so an insert always adds a new row. Every one of these functions keeps it.

Class `Store.TodoStore` performs the same operations in place, with the stepping loops as `while` loops. Each of its methods is proved to end in the state the matching function computes, and to keep the invariant as `Valid()`.

**Parameters instead of effects.** Every database reply is a parameter: success or failure, and the row a select returns. So is every clock reading and every reply of the authentication service. A thrown exception is an explicit outcome (`Step.Threw`). Calls whose results the source ignores stay ignored.

**The UI components.** These are modelled by:

- pure functions for their rules;
- small classes for the component state those rules update.

Where the design notes of the application and its code disagree, the model follows the code:

- `advanceToFuture` does not clamp the interval to 1. It loops forever for an interval below 1 (`Interval.ZeroIntervalNeverAdvances`), so the stepping loops require `interval >= 1`. The only clamp is the one in the recurrence dialog.
- `advanceToFuture` reads its own clock, not the scan's `now`. After a backlog, the cursor moves to the first step strictly after that clock reading.
- `createRecurringInstance` puts the new instance at the front of the list, not the back.
- A failure in `addTodo` after the task insert leaves the inserted rows in the tables, although the list does not show them.
- The account dialog's name form calls `updateProfile`, which the profile store (`src/hooks/useProfile.ts`) does not provide. That call always throws a TypeError, so the name is never updated (`AccountSettings.NameUpdateAlwaysFails`).

## Model

| member | source | states |
|---|---|---|
| Calendar.AddDays | src/hooks/useTodos.ts:32 | adding n ≥ 1 days moves at least one day forward and keeps the time of day |
| Calendar.AddWeeks | src/hooks/useTodos.ts:30 | adding n ≥ 1 weeks moves at least seven days forward and keeps the time of day |
| Calendar.ShiftMonths | src/hooks/useTodos.ts:31 | on day numbers, shifting by n ≥ 1 months moves to a strictly later day and shifting by 0 stays on the same day |
| Calendar.AddMonths | src/hooks/useTodos.ts:31 | adding n ≥ 1 months moves at least a day forward, adding 0 changes nothing, and the time of day is kept |
| Calendar.AddMonthsOnDay | src/hooks/useTodos.ts:31 | addMonths on an instant is the month shift of its day with the time of day kept |
| Calendar.AddMonthsCivil | src/hooks/useTodos.ts:31 | on a calendar date, the month shift moves the month index by n and clips the day to the target month's length |
| Calendar.MonthEndClips | src/hooks/useTodos.ts:31 | on day numbers, January 31 plus one month is February 29 in a leap year and February 28 otherwise |
| Calendar.RepeatedMonthsDrift | src/hooks/useTodos.ts:38-40 | two single-month steps from January 31 land on the day of March equal to February's length (29 or 28): the clipped day is carried along |
| Calendar.TwoMonthsAtOnce | src/hooks/useTodos.ts:31 | one two-month step from January 31 lands on March 31, so repeated steps differ from one multi-month step |
| Calendar.CivilRoundTrip | src/hooks/useTodos.ts:31 | the day number of a valid date (y, m, d) maps back to month m of year y and day d |
| Interval.AddInterval | src/hooks/useTodos.ts:29-33 | a step of n ≥ 1 periods moves at least one day forward, n = 0 stays put, and the time of day is kept |
| Interval.Period | src/hooks/useTodos.ts:29-33 | the step of a frequency and n ≥ 1 moves every instant at least a day forward |
| Interval.AdvancePast | src/hooks/useTodos.ts:35-42 | for any step that moves at least a day forward, the result is strictly after the reference, not before the start, and equals the start when the start is already after the reference |
| Interval.EarlyIterate | src/hooks/useTodos.ts:35-42 | every repeated step before the one the loop stops at is at or before the reference |
| Interval.AdvancePastIsFirstIterate | src/hooks/useTodos.ts:35-42 | for any step that moves at least a day forward, advanceToFuture's loop returns the first repeated step strictly after the clock; every earlier step is at or before it |
| Interval.AdvanceToFuture | src/hooks/useTodos.ts:35-42 | the loop ends, for interval ≥ 1, with the first repeated step strictly after its own clock reading |
| Interval.NextAfterIsFirstLaterIterate | src/hooks/useTodos.ts:52-58 | for any step that moves at least a day forward, getNextScheduledDate takes at least one step and returns the first step strictly after afterDate |
| Interval.GetNextScheduledDate | src/hooks/useTodos.ts:52-58 | the loop returns that first later step, which is strictly after afterDate |
| Interval.ZeroIntervalNeverAdvances | src/hooks/useTodos.ts:38-40 | with interval 0 every step stays on the same instant, so the unclamped loops never end for a date at or before the clock |
| Interval.DailyAdvance | src/hooks/useTodos.ts:38-40 | daily steps of 1 reach the first day boundary strictly after the reference, at the start's time of day |
| Interval.BiweeklyExample | src/hooks/useTodos.ts:52-58 | due on day 0, every two weeks, completed on day 9: the next due date is day 14 |
| Reminder.ToNumber | src/hooks/useTodos.ts:46 | a time field converts to a number exactly when it is a run of digits (the empty field gives 0), otherwise NaN |
| Reminder.Split | src/hooks/useTodos.ts:46 | split yields at least one field and no field contains the separator |
| Reminder.SplitJoin | src/hooks/useTodos.ts:46 | joining the fields of a split with the separator gives the string back |
| Reminder.ApplyReminderTime | src/hooks/useTodos.ts:44-50 | the result is "no reminder" exactly when the time is null or empty |
| Reminder.FormatTimeFields | src/hooks/useTodos.ts:46 | a time written as HH:MM splits at ':' into its hour and minute fields |
| Reminder.TimeOfDay | src/hooks/useTodos.ts:48 | setting hour h and minute m on a day stays on that day, at time of day h·60+m minutes, on a whole minute |
| Reminder.ReminderOnSameDay | src/hooks/useTodos.ts:44-50 | "HH:MM" is placed on the due date's day at hour HH and minute MM, with seconds and milliseconds zero |
| Reminder.MissingMinuteIsZero | src/hooks/useTodos.ts:46-48 | a time with no minute field takes minute 0 |
| Recurrence.FindById | src/hooks/useTodos.ts:107 | find returns a member with the id, and nothing exactly when no member has it |
| Recurrence.Materialize | src/hooks/useTodos.ts:61-87 | createRecurringInstance succeeds exactly when the insert succeeds and the reminder time is valid. On success it prepends exactly one pending, uncompleted copy of the template due at the target, linked to the definition, and stores it as a row under the next id. Under the database invariant that id was unused, so the row is new, and the invariant still holds. On failure nothing changes |
| Recurrence.SetCursor | src/hooks/useTodos.ts:131-139 | the definition's cursor takes the new value; the list, the task rows and every other definition are unchanged, and the database invariant is kept |
| Recurrence.Cursor | src/hooks/useTodos.ts:110-117 | an unseeded cursor is at least a day after start_date or, failing that, after the template's due date; with neither, it is strictly after the clock |
| Recurrence.FollowingCursor | src/hooks/useTodos.ts:130 | the cursor stored after a due cursor is strictly after both the clock and the old cursor |
| Recurrence.ScanStep | src/hooks/useTodos.ts:104-141 | one definition's step keeps the database invariant (rows and definitions keyed by their ids, all ids below the next id), whether it finishes or throws |
| Recurrence.Scan | src/hooks/useTodos.ts:89-145 | a whole scan keeps the database invariant, also when it stops at a throw |
| Recurrence.ScanStepAtMostOne | src/hooks/useTodos.ts:104-141 | one definition adds at most one task to the front of the list, and a throw keeps the world of that moment |
| Recurrence.ScanSkips | src/hooks/useTodos.ts:105-108 | a definition that is not scheduled, or whose template is missing from the snapshot, changes nothing |
| Recurrence.ScanSuppressesDuplicate | src/hooks/useTodos.ts:119-128 | a due cursor already matched in the snapshot by recurring_task_id and exact due date creates nothing |
| Recurrence.ScanCreatesDueInstance | src/hooks/useTodos.ts:119-128 | a due cursor with no match creates exactly one instance of the template, due at the cursor |
| Recurrence.ScanStepCursorInFuture | src/hooks/useTodos.ts:119-140 | after a step whose update succeeded, the stored cursor is strictly after the scan's now |
| Recurrence.ScanNotDue | src/hooks/useTodos.ts:135-140 | a cursor that is not yet due creates nothing and is written back only when none was stored |
| Recurrence.RescanIsQuiet | src/hooks/useTodos.ts:104-140 | scanning the updated definition again at the same instant changes nothing |
| Recurrence.DailyBacklogCollapses | src/hooks/useTodos.ts:119-134 | a daily cursor that is days overdue yields at most one instance; the cursor moves to the first day boundary after the clock |
| Recurrence.ScanAtMostOnePerDefinition | src/hooks/useTodos.ts:89-145 | a whole scan only puts new tasks in front of the list, at most one per listed definition, even when it aborts |
| Recurrence.ScanQuietWhenNothingDue | src/hooks/useTodos.ts:104-141 | when every scheduled definition's cursor is after now, the scan changes nothing |
| Recurrence.CompletionStep | src/hooks/useTodos.ts:147-183 | the after-completion rule keeps the database invariant, whether it finishes or throws |
| Recurrence.CompletionNext | src/hooks/useTodos.ts:161-167 | the after-completion due date is strictly after the completion and at least a day after the base date |
| Recurrence.CompletionIgnoresOthers | src/hooks/useTodos.ts:147-159 | nothing happens without a recurring_task_id, a readable definition and after_completion mode |
| Recurrence.CompletionOutcome | src/hooks/useTodos.ts:147-182 | the instance copies the completed todo and is due strictly after completion. A task already due then suppresses creation. The cursor is set to the due date either way |
| Recurrence.CompletionThrows | src/hooks/useTodos.ts:169-177 | when the rule applies it throws exactly when it must create an instance and the insert fails or the reminder time is invalid; a throw leaves the world as it was |
| Recurrence.CompletionIdempotent | src/hooks/useTodos.ts:169-177 | completing the same todo again at the same instant creates no second instance |
| Store.TodoStore.constructor | src/hooks/useTodos.ts:185-187 | the store starts with an empty list and tables, which satisfy the database invariant Valid; every method below requires Valid and keeps it |
| Store.TodoStore.CreateRecurringInstance | src/hooks/useTodos.ts:61-87 | ends in the state Materialize computes, and reports whether it threw |
| Store.TodoStore.UpdateCursor | src/hooks/useTodos.ts:131-139 | ends in the state SetCursor computes |
| Store.TodoStore.ScanOne | src/hooks/useTodos.ts:105-140 | one loop iteration ends in the state ScanStep computes, and reports a throw |
| Store.TodoStore.GenerateScheduledTasks | src/hooks/useTodos.ts:89-145 | the loop over the listed definitions ends in the state Scan computes, stopping at the first throw |
| Store.TodoStore.HandleAfterCompletion | src/hooks/useTodos.ts:147-183 | ends in the state CompletionStep computes, and reports a throw. When the rule applies, nothing throws and the cursor update succeeds, the definition's cursor is the computed due date, strictly after the completion. The invariant supplies the keyed definitions this needs |
| Store.TodoStore.AddTodo | src/hooks/useTodos.ts:214-287 | ends in the state Mutations.AddTodo computes |
| Store.TodoStore.UpdateTodo | src/hooks/useTodos.ts:289-305 | ends in the state Mutations.UpdateTodo computes |
| Store.TodoStore.ToggleComplete | src/hooks/useTodos.ts:307-345 | ends in the state Mutations.ToggleComplete computes |
| Store.TodoStore.DeleteTodo | src/hooks/useTodos.ts:347-369 | ends in the state Mutations.DeleteTodo computes |
| Mutations.ApplyPatch | src/hooks/useTodos.ts:299 | the spread of an update keeps the task's id and owner |
| Mutations.CompletionPatchLockStep | src/hooks/useTodos.ts:309-314 | the completion update sets is_completed, status and completed_at in lock-step and leaves every other field alone |
| Mutations.PatchEntries | src/hooks/useTodos.ts:298-300 | the map keeps the length; entries with the id take the update and the others are unchanged |
| Mutations.ReplaceEntries | src/hooks/useTodos.ts:330-332 | the map keeps the length; entries with the id become the re-read row and the others are unchanged |
| Mutations.PatchRow | src/hooks/useTodos.ts:291-294 | the update touches only the row with the id, keeps the set of rows and keeps every row's id |
| Mutations.PatchRowKeepsValid | src/hooks/useTodos.ts:291-294 | writing an update keeps the database invariant |
| Mutations.UpdateTodo | src/hooks/useTodos.ts:289-305 | on a store error nothing changes. Otherwise the row with the id takes the update, only list entries with the id change, they take the update, and the order and length are kept; the database invariant is kept |
| Mutations.ToggleFailedWrite | src/hooks/useTodos.ts:317-335 | after a failed write the tables are unchanged. The target entry holds the re-read row when there is one, else the optimistic value. Other entries are untouched and no instance is created |
| Mutations.ToggleReopen | src/hooks/useTodos.ts:307-324 | reopening changes only the completion fields of the target, in lock-step, and creates nothing |
| Mutations.ToggleComplete | src/hooks/useTodos.ts:307-345 | toggleComplete keeps the database invariant |
| Mutations.ToggleRunsRule | src/hooks/useTodos.ts:336-339 | after a successful completing write, the final world is the written world when no entry has the id, else what the after-completion rule makes of it for the first live entry with the id |
| Mutations.ToggleMarkDone | src/hooks/useTodos.ts:307-340 | completing marks the target completed at the clock reading, in lock-step. The after-completion rule then runs on the first live entry with the id, and its outcome is the final world, which adds at most one instance in front |
| Mutations.FindPatched | src/hooks/useTodos.ts:336 | the live entry the rule runs on is the first entry with the id, patched |
| Mutations.RuleOutcome | src/hooks/useTodos.ts:169-182 | with all replies successful: an existing task due at the computed date suppresses creation; otherwise the next instance goes in front unless its reminder time is invalid, which throws and leaves the world. Whenever nothing throws the cursor is the computed date |
| Mutations.CompletingCreatesNextInstance | src/hooks/useTodos.ts:307-340 | completing a task whose definition is in after-completion mode, with every reply a success, puts the next instance in front of the patched list. The instance copies the completed task and is due strictly after the completion. Creation is suppressed only by a task already due then; an invalid reminder time throws. Whenever nothing throws, the cursor is that date |
| Mutations.AfterCompletionGrowth | src/hooks/useTodos.ts:169-177 | the after-completion rule adds at most one task to the list |
| Mutations.DeleteTodo | src/hooks/useTodos.ts:347-363 | on a store error the previous list is restored exactly; the definitions are never touched, and the database invariant is kept |
| Mutations.DeleteRemovesOnlyTarget | src/hooks/useTodos.ts:351-353 | a delete removes exactly the entries with the id. The rest keep their order and multiplicity, and only that row leaves the table |
| Mutations.DeleteAbsentKeepsList | src/hooks/useTodos.ts:351-353 | deleting an id no entry has keeps the list |
| Mutations.InitialCursor | src/hooks/useTodos.ts:248-252 | a new definition has a cursor exactly in scheduled mode. With no base date the cursor is strictly after the clock; with one it is at least a day after the base |
| Mutations.AddTodo | src/hooks/useTodos.ts:214-287 | addTodo keeps the database invariant, also when it stops part-way |
| Mutations.AddTodoSucceeds | src/hooks/useTodos.ts:214-281 | a successful add prepends one pending, uncompleted task owned by the user, with the chosen title, priority, description, category and tags, and adds exactly that row. With a recurrence, the task is linked to one new definition and no other definition changes. The definition names the task as template and carries the user, mode, frequency, interval and time of day. Its start date is the day of its base date, and its cursor is set by InitialCursor. Under the database invariant both new ids were unused |
| Mutations.AddTodoFailureKeepsList | src/hooks/useTodos.ts:230-286 | any failed step keeps the list. A failure before the insert changes nothing at all; a later one leaves an unlinked row behind |
| Mutations.AddTodoReminder | src/hooks/useTodos.ts:226-228 | the new task's reminder is the recurrence's time projected onto the due date when there is both, else the one chosen |
| Seqs.Filter | src/components/todos/TodoList.tsx:41 | filtering keeps exactly the members that pass and never lengthens the list |
| Seqs.FilterIsSubsequence | src/components/todos/TodoList.tsx:41 | filtering keeps the order of what it keeps |
| Seqs.FilterPartition | src/components/todos/TodoList.tsx:44-45 | filtering by a predicate and by its negation splits the list, multiset and length |
| Seqs.FilterAll | src/hooks/useTodos.ts:352 | filtering with a predicate every member passes changes nothing |
| Seqs.FilterEmpty | src/components/todos/TodoList.tsx:60 | a filter yields nothing exactly when no member passes |
| Text.TrimStart | src/components/todos/TodoForm.tsx:45 | trimStart yields a suffix that does not start with white space, and only white space is cut |
| Text.TrimEnd | src/components/account/AccountSettingsModal.tsx:38 | the end trim yields a prefix that does not end with white space, and only white space is cut |
| Text.TrimEmptyIffBlank | src/components/todos/TodoForm.tsx:89 | a string trims to empty exactly when it is all white space |
| Text.TrimEnds | src/components/account/AccountSettingsModal.tsx:42 | a trimmed string neither starts nor ends with white space and is the original minus white space at both ends |
| Text.ContainsTransitive | src/components/auth/LoginForm.tsx:82-87 | whatever contains a string contains its substrings |
| RecurrenceModal.InitialValues | src/components/todos/RecurringTaskModal.tsx:22-35 | the dialog opens on the current value, or on scheduled, daily, interval 1, no start date and no time |
| RecurrenceModal.ApplyEdit | src/components/todos/RecurringTaskModal.tsx:37-39 | an edit changes its own field and keeps the others |
| RecurrenceModal.ClampInterval | src/components/todos/RecurringTaskModal.tsx:44 | the saved interval is at least 1. A number ≥ 1 is kept; NaN, 0 and numbers below 1 become 1 |
| RecurrenceModal.Saved | src/components/todos/RecurringTaskModal.tsx:41-52 | Clear saves null. Save rewrites only the interval, so mode, frequency, start date and time are kept, and the interval is ≥ 1 |
| RecurrenceModal.ReopenAndSaveAgain | src/components/todos/RecurringTaskModal.tsx:31-47 | reopening on saved values and saving again returns them unchanged; after Clear the dialog shows the defaults |
| TodoForm.StripMarker | src/components/todos/TodoForm.tsx:96-104 | dropping a marker leaves a suffix of the title that does not start with white space |
| TodoForm.ProcessTitle | src/components/todos/TodoForm.tsx:92-104 | the sent title is a suffix of the raw title without leading white space. Priority is High exactly when the trimmed title starts with '!' or '！', else the chosen one |
| TodoForm.MarkersStrippedOnceInOrder | src/components/todos/TodoForm.tsx:96-104 | "#!x" becomes "!x" without forcing High, and "!!x" loses only one '!' |
| TodoForm.MarkerOnlyTitleIsSentEmpty | src/components/todos/TodoForm.tsx:89-104 | the title "!" passes the blank check and is sent as an empty High title |
| TodoForm.NullIfEmpty | src/components/todos/TodoForm.tsx:108 | an empty control becomes null and any other value is kept |
| TodoForm.RecurrenceArgument | src/components/todos/TodoForm.tsx:116-124 | the recurrence keeps the dialog's mode, frequency, interval and start date; an empty time becomes null |
| TodoForm.SubmitPayload | src/components/todos/TodoForm.tsx:87-125 | nothing is sent exactly when the raw title is blank. Otherwise the processed title and priority are sent, empty controls become null, and the recurrence is passed on or null |
| TodoForm.SubmittedRecurrenceSteps | src/components/todos/TodoForm.tsx:116-124 | after Clear the recurrence sent is null; after Save its interval is ≥ 1, so addTodo's loops end |
| TodoForm.TypingEffectSettles | src/components/todos/TodoForm.tsx:39-62 | a second run of the typing effect changes nothing, so its re-runs settle |
| TodoForm.TypingEffectRules | src/components/todos/TodoForm.tsx:39-62 | an empty title resets the priority and '!' forces High. High without '!' reverts to the default. '#' fills an empty category with the first one, and a chosen category is kept |
| TodoForm.FormState.constructor | src/components/todos/TodoForm.tsx:22-30 | the form starts empty with the default priority and date and no recurrence |
| TodoForm.FormState.RunTypingEffect | src/components/todos/TodoForm.tsx:39-62 | the priority and category controls end as TypingEffect says, and nothing else changes |
| TodoForm.FormState.TypeTitle | src/components/todos/TodoForm.tsx:39-62 | typing sets the title and then runs the effect; description, due date, recurrence and the dialog's open flag stay |
| TodoForm.FormState.ChoosePriority | src/components/todos/TodoForm.tsx:39-62 | choosing a priority sets it and then runs the effect, which overrides it under a '!' title; the title and the other fields stay |
| TodoForm.FormState.ChooseCategory | src/components/todos/TodoForm.tsx:39-62 | choosing a category sets it and then runs the effect; the title and the other fields stay |
| TodoForm.FormState.CloseRecurrenceDialog | src/components/todos/RecurringTaskModal.tsx:41-52 | the form's recurrence becomes what the dialog saved, and keeps interval ≥ 1; every other field stays |
| TodoForm.FormState.ResetForm | src/components/todos/TodoForm.tsx:65-73 | every field returns to its initial value and the dialog closes |
| TodoForm.FormState.Submit | src/components/todos/TodoForm.tsx:87-128 | returns SubmitPayload's argument, which is None exactly for a blank title. A sent task resets the form; a blank title leaves every field as it was |
| Notifications.FiredExactly | src/hooks/useNotifications.ts:21-48 | one pass notifies exactly the due ids not notified before, each once |
| Notifications.ReminderMonitor.constructor | src/hooks/useNotifications.ts:7 | the notified set starts empty |
| Notifications.ReminderMonitor.CheckReminders | src/hooks/useNotifications.ts:18-49 | the loop notifies the ids Fired gives, in list order, and adds exactly the due ids to the set |
| Notifications.NotifiedNeverAgain | src/hooks/useNotifications.ts:7-32 | an id in the set is never notified again, even after its reminder moves |
| Notifications.OnlyDueTasksFire | src/hooks/useNotifications.ts:22-29 | without a reminder, when completed, or outside (now − 1 min, now + 1 min], nothing fires |
| TodoList.Filtered | src/components/todos/TodoList.tsx:39-42 | without a filter the list is the store's list; with one it holds exactly the passing tasks |
| TodoList.Active | src/components/todos/TodoList.tsx:44 | the active list holds exactly the filtered tasks that are not completed |
| TodoList.Completed | src/components/todos/TodoList.tsx:45 | the completed list holds exactly the filtered tasks that are completed |
| TodoList.FilteredKeepsOrder | src/components/todos/TodoList.tsx:39-42 | the filtered list keeps the store's order |
| TodoList.ActiveCompletedPartition | src/components/todos/TodoList.tsx:44-45 | active and completed are disjoint, together make up the filtered list, and each keeps its order |
| TodoList.Render | src/components/todos/TodoList.tsx:47-53 | the spinner shows exactly when loading with an empty list |
| TodoList.RenderRules | src/components/todos/TodoList.tsx:47-77 | the empty text shows exactly when no filtered task is open. It is 'no tasks yet' exactly for an empty list, else the caller's message or the fallback. The completed section shows exactly when a filtered task is completed |
| TodoList.UnfilteredShowsEverything | src/components/todos/TodoList.tsx:39-45 | without a filter every task appears once, active or completed |
| TodoStats.PriorityCountsCover | src/components/todos/TodoStats.tsx:17-21 | the high, medium and low counts add up to the list length |
| TodoStats.ComputeStats | src/components/todos/TodoStats.tsx:12-24 | total is the length, completed counts the completed tasks, pending = total − completed ≥ 0, and high, medium and low count the tasks of each priority and add up to total. completed (pending) is 0 exactly when no task is (every task is) completed |
| TodoStats.Render | src/components/todos/TodoStats.tsx:31-33 | the no-tasks text shows exactly when the list is empty |
| LoginForm.EmailRuleSound | src/components/auth/LoginForm.tsx:30 | an address the pattern accepts has no white space, exactly one '@' with text before it, and a domain with an inner '.' |
| LoginForm.EmailRuleComplete | src/components/auth/LoginForm.tsx:30 | every address with those properties is accepted |
| LoginForm.EmailRule | src/components/auth/LoginForm.tsx:30 | the pattern accepts exactly those addresses |
| LoginForm.Validate | src/components/auth/LoginForm.tsx:30-49 | the e-mail check comes first in both modes. Sign-up then rejects a password under 6 characters, then a mismatch; sign-in skips both |
| LoginForm.SecondMarkerInFourth | src/components/auth/LoginForm.tsx:82-87 | the second duplicate marker occurs inside the fourth |
| LoginForm.LongMarkerRedundant | src/components/auth/LoginForm.tsx:82-87 | the fourth duplicate marker adds nothing: any message containing it contains the second |
| LoginForm.ErrorToast | src/components/auth/LoginForm.tsx:143 | the error's message is shown, or the generic text exactly when the message is empty |
| LoginForm.SignUpOutcome | src/components/auth/LoginForm.tsx:54-125 | registration succeeds only with a session, from signUp or from the retry sign-in; verification is pending only for a user without one |
| LoginForm.AlreadyRegisteredCases | src/components/auth/LoginForm.tsx:63-101 | 'already registered' is reported exactly when the probe signs in, signUp fails with a listed substring, or the user has no identities |
| LoginForm.SignInOutcome | src/components/auth/LoginForm.tsx:126-131 | sign-in succeeds exactly when the reply has no error |
| LoginForm.SubmitOutcome | src/components/auth/LoginForm.tsx:26-141 | a refused submit reports the first failing check; otherwise the mode's flow decides |
| LoginForm.RejectionPrecedesRequests | src/components/auth/LoginForm.tsx:30-51 | a refused submit does not depend on any reply: no request is made |
| LoginForm.LoginState.constructor | src/components/auth/LoginForm.tsx:20-24 | the form starts empty, in sign-in mode, not loading |
| LoginForm.LoginState.ToggleMode | src/components/auth/LoginForm.tsx:212-215 | the mode flips and the confirmation is cleared |
| LoginForm.LoginState.Submit | src/components/auth/LoginForm.tsx:26-147 | reports SubmitOutcome. isLoading is raised exactly when every check passed and is lowered before the end |
| SettingsPage.PasswordGuard | src/pages/SettingsPage.tsx:21-34 | the checks run in order: both fields filled, then a new password of at least 6, then a matching confirmation |
| SettingsPage.FailureToast | src/pages/SettingsPage.tsx:50 | the error's message is shown, or the generic text exactly when it is empty |
| SettingsPage.PasswordChange | src/pages/SettingsPage.tsx:18-53 | a refused change reports the first failing check; the update succeeds only for a valid, matching password and a successful reply |
| SettingsPage.SettingsForm.constructor | src/pages/SettingsPage.tsx:12-16 | the form starts empty, not updating |
| SettingsPage.SettingsForm.ButtonDisabled | src/pages/SettingsPage.tsx:132 | the button is enabled exactly when not updating and both fields are filled, so an enabled submit passes the emptiness check |
| SettingsPage.SettingsForm.UpdatePassword | src/pages/SettingsPage.tsx:18-54 | only the new password is sent, and only when the checks pass. Success clears both fields and isUpdating is lowered again |
| AccountSettings.NameArgument | src/components/account/AccountSettingsModal.tsx:36-42 | a name blank after trimming is ignored; otherwise the non-empty trimmed name is the argument built for updateProfile |
| AccountSettings.NameArgumentIsTrimmed | src/components/account/AccountSettingsModal.tsx:38-42 | that argument has no white space at either end and is the typed name minus the white space at both ends |
| AccountSettings.AccountPasswordGuard | src/components/account/AccountSettingsModal.tsx:55-68 | the checks run in order: all three fields filled, then a new password of at least 6, then a match. An empty current password always fails the first |
| AccountSettings.SameChecksAsSettingsPage | src/components/account/AccountSettingsModal.tsx:55-68 | with a current password the checks are the settings page's checks; the current password is never verified |
| AccountSettings.AccountPasswordChange | src/components/account/AccountSettingsModal.tsx:52-89 | refused exactly when a check fails. Updated exactly when the checks pass and the reply is successful |
| AccountSettings.PasswordChangeUnreachable | src/components/account/AccountSettingsModal.tsx:55-58 | with the current-password field empty, every submit stops at 'fill all fields' |
| AccountSettings.AccountDialog.constructor | src/components/account/AccountSettingsModal.tsx:22-27 | all fields start empty, including the current password |
| AccountSettings.AccountDialog.Opened | src/components/account/AccountSettingsModal.tsx:29-33 | opening with a profile loads its full name, or "" when it is null |
| AccountSettings.AccountDialog.TypeName | src/components/account/AccountSettingsModal.tsx:108 | the name control writes the name only |
| AccountSettings.AccountDialog.TypeNewPassword | src/components/account/AccountSettingsModal.tsx:134 | the new-password control writes that field only, never the current password |
| AccountSettings.AccountDialog.TypeConfirmPassword | src/components/account/AccountSettingsModal.tsx:148 | the confirmation control writes that field only, never the current password |
| AccountSettings.CaughtName | src/components/account/AccountSettingsModal.tsx:44-46 | the catch block reports the error's message, or the fallback text exactly when that message is empty; never a success |
| AccountSettings.NameSubmit | src/components/account/AccountSettingsModal.tsx:36-49 | a blank name does nothing; any other name reaches the call to updateProfile, which src/hooks/useProfile.ts:6-11 does not define, and the TypeError is caught |
| AccountSettings.NameUpdateAlwaysFails | src/components/account/AccountSettingsModal.tsx:18 | for every typed name the form does nothing or reports the TypeError's message; "name updated" is unreachable |
| AccountSettings.AccountDialog.UpdateName | src/components/account/AccountSettingsModal.tsx:36-49 | builds NameArgument of the typed name and reports NameSubmit of it; no request is made. isLoading is raised only for a non-blank name and lowered again |
| AccountSettings.AccountDialog.UpdatePassword | src/components/account/AccountSettingsModal.tsx:52-89 | only the new password would be sent and success would clear all three fields. While the current password is empty, as the dialog keeps it, every submit is refused and nothing is sent |

## Left out

- The text of the TypeError thrown by the name form's call to the missing `updateProfile` depends on the JavaScript engine. `AccountSettings.UpdateProfileTypeError` fixes one non-empty text, and no proof depends on which.
- Supabase: each call is replaced by its reply, given as a parameter. Row selects are replaced by the rows they return: the scan's listing of definitions is a parameter, and user scoping is not modelled.
- The sign-in check of `generateScheduledTasks` (lines 91-92) is not modelled.
- `fetchTodos` (src/hooks/useTodos.ts:189-212) is not modelled. It loads the list and starts the scan, which the model takes with its snapshot as a parameter.
- The columns `created_at` and `updated_at` and the category join are not modelled; no modelled rule reads them.
- Concurrency is not modelled: each operation runs to completion before the next, with no interleaving of asynchronous steps and no race between two tabs.
- The scan reads the clock at line 116 and in `advanceToFuture` separately, but the model takes one clock reading per definition for both.
- Time zones and daylight saving are not modelled: everything is in one local frame.
- Date strings are instants, and an unparsable date string is not modelled.
- The date-only `start_date` column is written as the start of the base date's day.
- `Number()` on a time field is modelled for digit runs only. Signs, white space, fractions and exponents give NaN in the model, where JavaScript may parse them. A fractional interval that survives the dialog's clamp is modelled as an integer.
- String lengths count Unicode characters, whereas JavaScript counts UTF-16 code units. Characters outside the Basic Multilingual Plane therefore count once instead of twice in the password-length checks.
- Toasts, console output, navigation, `initialize()`, the Notification API, the permission request and the `setInterval` timer are not modelled. They are replaced by the outcome values they would report.
- Exceptions thrown by `initialize()` or `navigate` are not modelled.
- Mutations.Patch: an update cannot change `id` or `user_id`. The callers never send those columns.
- Recurrence.ScanStep requires `interval >= 1` for every scheduled definition. The source runs no stepping loop for a definition whose stored cursor is not yet due, so it could take a smaller interval there; wherever a loop does run, a smaller interval makes the source loop forever.
- Store.TodoStore.GenerateScheduledTasks and Store.TodoStore.ScanOne carry the same over-requirement as Recurrence.ScanStep.
- Mutations.ToggleComplete, Store.TodoStore.ToggleComplete, Recurrence.CompletionStep and Store.TodoStore.HandleAfterCompletion require every after-completion definition in the table to have `interval >= 1`, not only the one the completed task names. Every definition the recurrence dialog saves meets this, since it clamps the interval to at least 1 (src/components/todos/RecurringTaskModal.tsx:44).
- Mutations.AddTodo requires `interval >= 1` only where the source runs a stepping loop: a scheduled recurrence without any base date.
- The fields of `NewTodo` that addTodo overwrites are not modelled: it always inserts status pending and not completed.
- LoginForm.LoginState.ToggleMode requires the form not to be loading, because the button is disabled then. Button.tsx is not part of this model.
- The duplicate check compares due dates as exact instants. The string-to-instant parsing at lines 123 and 172 is not modelled.
