/** The records of the task store: tasks (todos) and recurring-task definitions, with their
    status, priority, frequency and mode enumerations. Identifiers are natural numbers assigned
    by the store; instants are milliseconds in the calendar's local frame (module Calendar). */
module Types {

  datatype Option<T> = None | Some(value: T) {
    function GetOr(default: T): T {
      match this
      case Some(v) => v
      case None => default
    }
  }

  type Id = nat

  datatype Status = Pending | InProgress | Completed
  datatype Priority = Low | Medium | High
  datatype Frequency = Daily | Weekly | Monthly
  datatype Mode = Scheduled | AfterCompletion

  datatype Todo = Todo(
    id: Id,
    user_id: Id,
    title: string,
    description: Option<string>,
    status: Status,
    priority: Priority,
    category_id: Option<Id>,
    recurring_task_id: Option<Id>,
    tags: seq<string>,
    due_date: Option<int>,
    reminder_time: Option<int>,
    is_completed: bool,
    completed_at: Option<int>)

  /** A recurring-task definition. `todo_id` names its template task; `next_run_at` is the
      cursor of scheduled mode. */
  datatype RecurringTask = RecurringTask(
    id: Id,
    user_id: Id,
    todo_id: Id,
    mode: Mode,
    frequency: Frequency,
    interval: int,
    start_date: Option<int>,
    next_run_at: Option<int>,
    reminder_time: Option<string>,
    end_date: Option<int>,
    last_generated_at: Option<int>)

  /** The completion fields move together: completed exactly when the status says so, and a
      completion instant exactly when completed. */
  predicate CompletionConsistent(t: Todo) {
    && t.is_completed == (t.status == Completed)
    && t.completed_at.Some? == t.is_completed
  }
}
