/** The task list component: a sorted copy of the tasks (incomplete first, then by due
    date with undated tasks last, then newest first) and the completion summary. */
module TodoList {
  import opened Wrappers
  import opened Tasks
  import opened Seqs
  import opened Sorting
  import Stats

  /** The comparator passed to `sort`: negative when `a` goes first, positive when `b` does.
      An incomplete task goes before a completed one; within one status a dated task before
      an undated one, two dated tasks earliest due first, and two undated tasks newest first. */
  function Compare(a: Task, b: Task): (r: int)
    ensures a.completed != b.completed ==> (r < 0 <==> b.completed) && r != 0
    ensures a.completed == b.completed && a.dueDate.Some? && b.dueDate.Some? ==>
      (r < 0 <==> a.dueDate.value < b.dueDate.value) && (r == 0 <==> a.dueDate.value == b.dueDate.value)
    ensures a.completed == b.completed && a.dueDate.Some? != b.dueDate.Some? ==> (r < 0 <==> a.dueDate.Some?) && r != 0
    ensures a.completed == b.completed && a.dueDate.None? && b.dueDate.None? ==>
      (r < 0 <==> a.createdAt > b.createdAt) && (r == 0 <==> a.createdAt == b.createdAt)
  {
    if a.completed != b.completed then (if a.completed then 1 else -1)
    else if a.dueDate.Some? && b.dueDate.Some? then a.dueDate.value - b.dueDate.value
    else if a.dueDate.Some? && b.dueDate.None? then -1
    else if a.dueDate.None? && b.dueDate.Some? then 1
    else b.createdAt - a.createdAt
  }

  /** The comparator as a sort key: completion, then a dated/undated marker, then the due
      instant or the negated creation instant. */
  function TodoKey(t: Task): seq<int> {
    var done := if t.completed then 1 else 0;
    if t.dueDate.Some? then [done, 0, t.dueDate.value] else [done, 1, -t.createdAt]
  }

  /** The comparator and the key agree: `a` may go first exactly when its key is no larger,
      and the two compare equal exactly when their keys are equal. */
  lemma CompareMatchesKey(a: Task, b: Task)
    ensures Compare(a, b) <= 0 <==> LexLeq(TodoKey(a), TodoKey(b))
    ensures Compare(a, b) == 0 <==> TodoKey(a) == TodoKey(b)
  {
    var ka, kb := TodoKey(a), TodoKey(b);
    LexLeqTriple(ka[0], ka[1], ka[2], kb[0], kb[1], kb[2]);
    assert ka == [ka[0], ka[1], ka[2]] && kb == [kb[0], kb[1], kb[2]];
  }

  /** Lexicographic order on three-element keys, written out. */
  lemma LexLeqTriple(x0: int, x1: int, x2: int, y0: int, y1: int, y2: int)
    ensures LexLeq([x0, x1, x2], [y0, y1, y2]) <==>
      x0 < y0 || (x0 == y0 && (x1 < y1 || (x1 == y1 && x2 <= y2)))
  {
    assert [x0, x1, x2][1..] == [x1, x2] && [y0, y1, y2][1..] == [y1, y2];
    assert [x1, x2][1..] == [x2] && [y1, y2][1..] == [y2];
    assert [x2][1..] == [] && [y2][1..] == [];
    assert LexLeq([x2], [y2]) <==> x2 <= y2;
    assert LexLeq([x1, x2], [y1, y2]) <==> x1 < y1 || (x1 == y1 && LexLeq([x2], [y2]));
  }

  /** `[...todos].sort(compare)`: a stable sort of a copy, ascending in the comparator. */
  function SortTodos(todos: seq<Task>): (r: seq<Task>)
    ensures |r| == |todos| && multiset(r) == multiset(todos)
    ensures SortedBy(r, TodoKey, false)
  {
    SortedBySortByKey(todos, TodoKey, false);
    SortByKey(todos, TodoKey, false)
  }

  /** `sort` is stable: the tasks that compare equal to `t` (those with its key) keep
      their order from the unsorted list. */
  lemma SortTodosStable(todos: seq<Task>, t: Task)
    ensures Ties(SortTodos(todos), TodoKey, TodoKey(t)) == Ties(todos, TodoKey, TodoKey(t))
  {
    SortByKeyStable(todos, TodoKey, false, TodoKey(t));
  }

  /** No pair of the sorted list is out of the comparator's order. */
  lemma SortedRespectsCompare(todos: seq<Task>, i: nat, j: nat)
    requires i < j < |todos|
    ensures Compare(SortTodos(todos)[i], SortTodos(todos)[j]) <= 0
  {
    CompareMatchesKey(SortTodos(todos)[i], SortTodos(todos)[j]);
  }

  /** Every incomplete task comes before every completed one. */
  lemma IncompleteFirst(todos: seq<Task>, i: nat, j: nat)
    requires i < j < |todos| && SortTodos(todos)[i].completed
    ensures SortTodos(todos)[j].completed
  {
    var r := SortTodos(todos);
    assert LexLeq(TodoKey(r[i]), TodoKey(r[j]));
  }

  /** Within one completion status, a dated task comes before an undated one. */
  lemma DatedBeforeUndated(todos: seq<Task>, i: nat, j: nat)
    requires i < j < |todos|
    requires SortTodos(todos)[i].completed == SortTodos(todos)[j].completed
    requires SortTodos(todos)[i].dueDate.None?
    ensures SortTodos(todos)[j].dueDate.None?
  {
    var r := SortTodos(todos);
    CompareMatchesKey(r[i], r[j]);
  }

  /** Within one completion status, dated tasks are in due-date order, earliest first. */
  lemma EarliestDueFirst(todos: seq<Task>, i: nat, j: nat)
    requires i < j < |todos|
    requires SortTodos(todos)[i].completed == SortTodos(todos)[j].completed
    requires SortTodos(todos)[i].dueDate.Some? && SortTodos(todos)[j].dueDate.Some?
    ensures SortTodos(todos)[i].dueDate.value <= SortTodos(todos)[j].dueDate.value
  {
    var r := SortTodos(todos);
    CompareMatchesKey(r[i], r[j]);
  }

  /** Within one completion status, undated tasks are newest first. */
  lemma UndatedNewestFirst(todos: seq<Task>, i: nat, j: nat)
    requires i < j < |todos|
    requires SortTodos(todos)[i].completed == SortTodos(todos)[j].completed
    requires SortTodos(todos)[i].dueDate.None? && SortTodos(todos)[j].dueDate.None?
    ensures SortTodos(todos)[i].createdAt >= SortTodos(todos)[j].createdAt
  {
    var r := SortTodos(todos);
    CompareMatchesKey(r[i], r[j]);
  }

  /** Two tasks of one status due at the same instant compare equal, whatever their
      creation instants. */
  lemma EqualDueCompareEqual(a: Task, b: Task)
    requires a.completed == b.completed && a.dueDate.Some? && a.dueDate == b.dueDate
    ensures Compare(a, b) == 0 && Compare(b, a) == 0
  {
  }

  /** The view: nothing but the empty message for no tasks; otherwise the sorted list, the
      completed count, and the percentage, shown only when something is completed. */
  datatype ListView = Empty | Listing(sorted: seq<Task>, completedCount: nat, total: nat, percent: Option<int>)

  function View(todos: seq<Task>): (v: ListView)
    ensures v.Empty? <==> |todos| == 0
    ensures v.Listing? ==> v.sorted == SortTodos(todos) && v.total == |todos|
    ensures v.Listing? ==> v.completedCount == Stats.CompletedCount(todos) && v.completedCount <= v.total
    ensures v.Listing? ==> (v.percent.Some? <==> v.completedCount > 0)
    ensures v.Listing? && v.percent.Some? ==> 0 <= v.percent.value <= 100
    ensures v.Listing? && v.percent.Some? ==>
      v.percent.value == Stats.CompletionRate(v.completedCount, v.total) &&
      (2 * v.percent.value - 1) * v.total <= 200 * v.completedCount < (2 * v.percent.value + 1) * v.total
  {
    if |todos| == 0 then Empty
    else
      var done := Stats.CompletedCount(todos);
      Listing(SortTodos(todos), done, |todos|,
              if done > 0 then Some(Stats.CompletionRate(done, |todos|)) else None)
  }
}
