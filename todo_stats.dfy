/** The statistics panel (src/components/todos/TodoStats.tsx): the counters computed from the
    store's list and the choice between the no-tasks text and the panel. */
module TodoStats {
  import opened Types
  import opened Seqs

  predicate IsDone(t: Todo) {
    t.is_completed
  }

  predicate IsOpen(t: Todo) {
    !t.is_completed
  }

  predicate IsHigh(t: Todo) {
    t.priority == High
  }

  predicate IsMedium(t: Todo) {
    t.priority == Medium
  }

  predicate IsLow(t: Todo) {
    t.priority == Low
  }

  datatype Stats = Stats(total: int, completed: int, pending: int, high: int, medium: int, low: int)

  /** The three priority counts cover the list: every task has exactly one of the three. */
  lemma {:induction false} PriorityCountsCover(todos: seq<Todo>)
    ensures |Filter(todos, IsHigh)| + |Filter(todos, IsMedium)| + |Filter(todos, IsLow)| == |todos|
  {
    if todos != [] {
      PriorityCountsCover(todos[1..]);
    }
  }

  /** The stats memo: total is the list length, completed the number of completed tasks, pending
      the rest, and one count per priority. */
  function ComputeStats(todos: seq<Todo>): (s: Stats)
    ensures s.total == |todos|
    ensures 0 <= s.completed <= s.total
    ensures s.pending >= 0 && s.completed + s.pending == s.total
    ensures s.pending == |Filter(todos, IsOpen)|
    ensures s.completed == |Filter(todos, IsDone)|
    ensures s.high == |Filter(todos, IsHigh)|
    ensures s.medium == |Filter(todos, IsMedium)|
    ensures s.low == |Filter(todos, IsLow)|
    ensures s.high + s.medium + s.low == s.total
    ensures s.completed == 0 <==> forall k :: 0 <= k < |todos| ==> !todos[k].is_completed
    ensures s.pending == 0 <==> forall k :: 0 <= k < |todos| ==> todos[k].is_completed
  {
    FilterPartition(todos, IsDone, IsOpen);
    PriorityCountsCover(todos);
    FilterEmpty(todos, IsDone);
    FilterEmpty(todos, IsOpen);
    var total := |todos|;
    var completed := |Filter(todos, IsDone)|;
    Stats(total, completed, total - completed,
          |Filter(todos, IsHigh)|, |Filter(todos, IsMedium)|, |Filter(todos, IsLow)|)
  }

  datatype StatsView = NoTasks | Panel(stats: Stats)

  /** An empty list shows the no-tasks text instead of the panel. */
  function Render(todos: seq<Todo>): (v: StatsView)
    ensures v.NoTasks? <==> todos == []
    ensures v.Panel? ==> v.stats.total > 0 && v.stats == ComputeStats(todos)
  {
    var stats := ComputeStats(todos);
    if stats.total == 0 then NoTasks else Panel(stats)
  }
}
