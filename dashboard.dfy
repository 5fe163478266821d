/** The dashboard component: counters over the task list held by the page, the alert cards
    and the list of distinct category labels. */
module Dashboard {
  import opened Wrappers
  import opened Dates
  import opened Tasks
  import opened Seqs
  import Stats

  const Uncategorized := "Uncategorized"

  /** `todo.category || "Uncategorized"`: an absent or empty category gets the placeholder. */
  function Label(t: Task): (l: string)
    ensures l != ""
    ensures t.category.Some? && t.category.value != "" ==> l == t.category.value
    ensures !(t.category.Some? && t.category.value != "") ==> l == Uncategorized
  {
    if t.category.Some? && t.category.value != "" then t.category.value else Uncategorized
  }

  function Labels(todos: seq<Task>): (r: seq<string>)
    ensures |r| == |todos| && forall k :: 0 <= k < |todos| ==> r[k] == Label(todos[k])
  {
    seq(|todos|, k requires 0 <= k < |todos| => Label(todos[k]))
  }

  /** `[...new Set(todos.map(label))]`: each label once. */
  function Categories(todos: seq<Task>): (cats: seq<string>)
    ensures NoDuplicates(cats)
    ensures forall k :: 0 <= k < |todos| ==> Label(todos[k]) in cats
    ensures forall c :: c in cats ==> exists k :: 0 <= k < |todos| && Label(todos[k]) == c
  {
    var labels := Labels(todos);
    var cats := Dedup(labels);
    assert forall c :: c in cats ==> exists k :: 0 <= k < |todos| && Label(todos[k]) == c by {
      forall c | c in cats
        ensures exists k :: 0 <= k < |todos| && Label(todos[k]) == c
      {
        var k :| 0 <= k < |labels| && labels[k] == c;
        assert Label(todos[k]) == c;
      }
    }
    assert forall k :: 0 <= k < |todos| ==> Label(todos[k]) in cats by {
      forall k | 0 <= k < |todos|
        ensures Label(todos[k]) in cats
      {
        assert labels[k] == Label(todos[k]);
      }
    }
    cats
  }

  /** What the component renders when there is at least one task. `overdueCard` is the
      figure on the "Overdue Tasks" card, present when it is positive; `dueSoonCard` likewise
      for the "Due Soon" card. */
  datatype Overview = Overview(
    total: nat,
    completed: nat,
    pending: int,
    completionRate: nat,
    upcoming: nat,
    overdueCard: Option<int>,
    dueSoonCard: Option<nat>,
    categories: seq<string>)

  /** The dashboard for the tasks `todos` at the instant `now`; `None` renders nothing. */
  function Summarize(todos: seq<Task>, now: int): (v: Option<Overview>)
    ensures v.None? <==> |todos| == 0
    ensures v.Some? ==> v.value.total == |todos| && v.value.completed == Stats.CompletedCount(todos)
    ensures v.Some? ==> v.value.completed <= v.value.total && v.value.pending == v.value.total - v.value.completed
    ensures v.Some? ==> v.value.completionRate == Stats.CompletionRate(v.value.completed, v.value.total)
    ensures v.Some? ==> v.value.upcoming == Stats.UpcomingCount(todos, now)
    ensures v.Some? ==> (v.value.dueSoonCard.Some? <==> v.value.upcoming > 0)
    ensures v.Some? ==> (v.value.overdueCard.Some? <==> v.value.pending > 0)
    ensures v.Some? ==> v.value.categories == Categories(todos)
  {
    if |todos| == 0 then None
    else
      var total, done := |todos|, Stats.CompletedCount(todos);
      var upcoming := Stats.UpcomingCount(todos, now);
      var cats := Categories(todos);
      Some(Overview(
        total, done, total - done, Stats.CompletionRate(done, total), upcoming,
        if total - done > 0 then Some(total - done) else None,
        if upcoming > 0 then Some(upcoming) else None,
        cats))
  }

  /** The counters agree with the statistics route over the same tasks and instant. */
  lemma AgreesWithStats(todos: seq<Task>, now: int)
    requires |todos| > 0
    ensures var v, s := Summarize(todos, now).value, Stats.Compute(todos, now);
      v.total == s.total && v.completed == s.completed && v.pending == s.pending &&
      v.completionRate == s.completionRate && v.upcoming == s.upcoming
  {
  }

  /** The "Overdue Tasks" card shows the pending count: every incomplete task, whether or
      not it has a due date in the past. */
  lemma OverdueCardIsPending(todos: seq<Task>, now: int)
    requires |todos| > 0
    ensures var v := Summarize(todos, now).value;
      v.overdueCard.Some? ==> v.overdueCard.value == v.pending
  {
  }

  /** The card therefore never shows less than the true overdue count, and shows more for
      a single incomplete task without a due date. */
  lemma OverdueCardBoundsOverdue(todos: seq<Task>, now: int)
    requires |todos| > 0 && Stats.OverdueCount(todos, now) > 0
    ensures var v := Summarize(todos, now).value;
      v.overdueCard.Some? && Stats.OverdueCount(todos, now) <= v.overdueCard.value
  {
    Stats.OverdueUpcomingDisjoint(todos, now);
  }

  lemma OverdueCardOvercounts(t: Task, now: int)
    requires !t.completed && t.dueDate.None?
    ensures Summarize([t], now).value.overdueCard == Some(1)
    ensures Stats.OverdueCount([t], now) == 0
  {
    assert [t][..0] == [];
  }
}
