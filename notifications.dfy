/** The reminder check of src/hooks/useNotifications.ts: a pass over the task list notifies each
    task whose reminder falls within a minute of the clock, at most once per task id, recording
    the ids it has notified in a set that lives as long as the hook. */
module Notifications {
  import opened Types

  /** One minute in milliseconds: the half-width of the reminder window. */
  const Window: int := 60_000

  /** A task is due for a reminder when it has a reminder instant, is not completed, and the
      instant lies in (now - 1 minute, now + 1 minute]. */
  predicate Due(t: Todo, now: int) {
    && t.reminder_time.Some?
    && !t.is_completed
    && -Window < t.reminder_time.value - now <= Window
  }

  /** The ids of the tasks in the list that are due. */
  function DueIds(todos: seq<Todo>, now: int): set<Id> {
    set i | 0 <= i < |todos| && Due(todos[i], now) :: todos[i].id
  }

  /** The ids one pass notifies, in list order, given the ids notified before the pass. */
  function Fired(todos: seq<Todo>, now: int, notified: set<Id>): seq<Id>
    decreases |todos|
  {
    if todos == [] then []
    else if Due(todos[0], now) && todos[0].id !in notified
    then [todos[0].id] + Fired(todos[1..], now, notified + {todos[0].id})
    else Fired(todos[1..], now, notified)
  }

  lemma DueIdsCons(todos: seq<Todo>, now: int)
    requires todos != []
    ensures DueIds(todos, now) == (if Due(todos[0], now) then {todos[0].id} else {}) + DueIds(todos[1..], now)
  {
    var rest := todos[1..];
    forall x | x in DueIds(rest, now) ensures x in DueIds(todos, now) {
      var i :| 0 <= i < |rest| && Due(rest[i], now) && rest[i].id == x;
      assert todos[i + 1] == rest[i];
    }
    forall x | x in DueIds(todos, now) && x != todos[0].id ensures x in DueIds(rest, now) {
      var i :| 0 <= i < |todos| && Due(todos[i], now) && todos[i].id == x;
      assert i > 0 && rest[i - 1] == todos[i];
    }
    if Due(todos[0], now) {
      assert todos[0].id in DueIds(todos, now);
    }
  }

  lemma DueIdsSnoc(todos: seq<Todo>, i: int, now: int)
    requires 0 <= i < |todos|
    ensures DueIds(todos[..i + 1], now) == DueIds(todos[..i], now) + (if Due(todos[i], now) then {todos[i].id} else {})
  {
    var a, b := todos[..i], todos[..i + 1];
    forall x | x in DueIds(a, now) ensures x in DueIds(b, now) {
      var j :| 0 <= j < |a| && Due(a[j], now) && a[j].id == x;
      assert b[j] == a[j];
    }
    forall x | x in DueIds(b, now) && x != todos[i].id ensures x in DueIds(a, now) {
      var j :| 0 <= j < |b| && Due(b[j], now) && b[j].id == x;
      assert j < i && a[j] == b[j];
    }
    if Due(todos[i], now) {
      assert b[i] == todos[i];
    }
  }

  /** What one pass notifies: exactly the due ids that were not notified before, each once. */
  lemma {:induction false} FiredExactly(todos: seq<Todo>, now: int, notified: set<Id>)
    ensures forall k :: 0 <= k < |Fired(todos, now, notified)| ==> Fired(todos, now, notified)[k] !in notified
    ensures forall j, k :: 0 <= j < k < |Fired(todos, now, notified)| ==> Fired(todos, now, notified)[j] != Fired(todos, now, notified)[k]
    ensures forall x :: x in Fired(todos, now, notified) <==> x in DueIds(todos, now) - notified
    decreases |todos|
  {
    if todos != [] {
      var t := todos[0];
      DueIdsCons(todos, now);
      if Due(t, now) && t.id !in notified {
        var n2 := notified + {t.id};
        FiredExactly(todos[1..], now, n2);
        var rest := Fired(todos[1..], now, n2);
        var fired := [t.id] + rest;
        assert Fired(todos, now, notified) == fired;
        assert forall k :: 0 <= k < |rest| ==> rest[k] !in n2;
        forall k | 0 <= k < |fired| ensures fired[k] !in notified {
          if k > 0 {
            assert fired[k] == rest[k - 1];
          }
        }
        forall j, k | 0 <= j < k < |fired| ensures fired[j] != fired[k] {
          assert fired[k] == rest[k - 1];
          if j > 0 {
            assert fired[j] == rest[j - 1];
          }
        }
        forall x ensures x in fired <==> x in DueIds(todos, now) - notified {
          assert x in fired <==> x == t.id || x in rest;
        }
      } else {
        FiredExactly(todos[1..], now, notified);
        assert Fired(todos, now, notified) == Fired(todos[1..], now, notified);
      }
    }
  }

  /** The hook's notified-id set. */
  class ReminderMonitor {
    var notified: set<Id>

    constructor()
      ensures notified == {}
    {
      notified := {};
    }

    /** checkReminders: one pass over the list at clock reading `now`; `fired` lists the ids
        notified, in list order. The set only grows, by exactly the due ids of this pass. */
    method CheckReminders(todos: seq<Todo>, now: int) returns (fired: seq<Id>)
      modifies this
      ensures fired == Fired(todos, now, old(notified))
      ensures notified == old(notified) + DueIds(todos, now)
    {
      fired := [];
      var i := 0;
      while i < |todos|
        invariant 0 <= i <= |todos|
        invariant notified == old(notified) + DueIds(todos[..i], now)
        invariant fired + Fired(todos[i..], now, notified) == Fired(todos, now, old(notified))
      {
        var todo := todos[i];
        assert todos[i..][0] == todo && todos[i..][1..] == todos[i + 1..];
        DueIdsSnoc(todos, i, now);
        if todo.reminder_time.Some? && !todo.is_completed {
          var diff := todo.reminder_time.value - now;
          if diff <= Window && diff > -Window && todo.id !in notified {
            notified := notified + {todo.id};
            fired := fired + [todo.id];
          }
        }
        i := i + 1;
      }
      assert todos[..i] == todos;
    }
  }

  /** Across passes: an id notified once is never notified again, even if its reminder is moved,
      since the set is never emptied; so a task is notified at most once while the hook lives. */
  lemma NotifiedNeverAgain(todos: seq<Todo>, now: int, notified: set<Id>, id: Id)
    requires id in notified
    ensures forall k :: 0 <= k < |Fired(todos, now, notified)| ==> Fired(todos, now, notified)[k] != id
  {
    FiredExactly(todos, now, notified);
  }

  /** Tasks without a reminder, or completed, never fire; a reminder a full minute or more in the
      past, or more than a minute ahead, does not fire either. */
  lemma OnlyDueTasksFire(todos: seq<Todo>, now: int, notified: set<Id>)
    requires forall i :: 0 <= i < |todos| ==> !Due(todos[i], now)
    ensures Fired(todos, now, notified) == []
  {
    FiredExactly(todos, now, notified);
    assert DueIds(todos, now) == {};
  }
}
