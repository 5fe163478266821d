/** One row of the task list: the overdue badge, decided at day granularity in the
    browser's local time, and the body of the toggle request. */
module TodoItem {
  import opened Dates
  import opened Tasks

  /** The local calendar day of an instant, for a zone `offset` milliseconds ahead of UTC:
      what `setHours(0, 0, 0, 0)` keeps of a `Date`. */
  function LocalDay(instant: int, offset: int): int {
    DayOf(instant + offset)
  }

  /** `isOverdue(todo.dueDate)`: a due date is present, its local day is strictly before
      today's, and the task is not completed. Equivalently, the task is pending and due before
      the local midnight that starts today. */
  predicate IsOverdue(t: Task, now: int, offset: int)
    ensures IsOverdue(t, now, offset) <==>
      t.dueDate.Some? && !t.completed && t.dueDate.value + offset < LocalDay(now, offset) * MsPerDay
  {
    if t.dueDate.Some? then
      DayBeforeMidnight(t.dueDate.value + offset, LocalDay(now, offset));
      LocalDay(t.dueDate.value, offset) < LocalDay(now, offset) && !t.completed
    else
      false
  }

  /** An instant lies on an earlier day than day `n` exactly when it comes before the
      midnight that starts day `n`. */
  lemma DayBeforeMidnight(instant: int, n: int)
    ensures DayOf(instant) < n <==> instant < n * MsPerDay
  {
    var d := DayOf(instant);
    if d < n {
      assert (d + 1) * MsPerDay <= n * MsPerDay;
    }
    if instant < n * MsPerDay {
      MoreDays(d, n);
    }
  }

  /** A task without a due date is never overdue. */
  lemma UndatedNeverOverdue(t: Task, now: int, offset: int)
    requires t.dueDate.None?
    ensures !IsOverdue(t, now, offset)
  {
  }

  /** A completed task is never overdue. */
  lemma CompletedNeverOverdue(t: Task, now: int, offset: int)
    requires t.completed
    ensures !IsOverdue(t, now, offset)
  {
  }

  /** Day granularity: a task due at any time of today's local day, even earlier than
      `now`, is not overdue. */
  lemma DueTodayNotOverdue(t: Task, now: int, offset: int)
    requires t.dueDate.Some? && LocalDay(t.dueDate.value, offset) == LocalDay(now, offset)
    ensures !IsOverdue(t, now, offset)
  {
  }

  /** The badge is stricter than the statistics' instant comparison: a badged task is
      overdue there too, and a task due at least a day before `now` is badged. */
  lemma BadgeImpliesOverdueAt(t: Task, now: int, offset: int)
    requires IsOverdue(t, now, offset)
    ensures IsOverdueAt(t, now)
  {
    var d, n := t.dueDate.value + offset, now + offset;
    assert DayOf(d) * MsPerDay <= d < DayOf(d) * MsPerDay + MsPerDay;
    assert DayOf(n) * MsPerDay <= n;
    assert (DayOf(d) + 1) * MsPerDay <= DayOf(n) * MsPerDay;
  }

  lemma LongOverdueIsBadged(t: Task, now: int, offset: int)
    requires t.dueDate.Some? && t.dueDate.value + MsPerDay <= now && !t.completed
    ensures IsOverdue(t, now, offset)
  {
    var d, n := t.dueDate.value + offset, now + offset;
    assert DayOf(d) * MsPerDay <= d;
    assert n < DayOf(n) * MsPerDay + MsPerDay;
    MoreDays(DayOf(d), DayOf(n));
  }

  /** Whole days compare as their first instants do. */
  lemma MoreDays(a: int, b: int)
    requires a * MsPerDay < b * MsPerDay
    ensures a < b
  {
  }

  /** `{ completed: !todo.completed }`: the toggle always asks for the other status. */
  function ToggleBody(t: Task): (completed: bool)
    ensures completed != t.completed
  {
    !t.completed
  }
}
