/** The statistics route (`GET /api/todos/stats`): counts over the stored tasks and a
    per-category breakdown, all read from one snapshot of the collection. */
module Stats {
  import opened Wrappers
  import opened Tasks
  import opened Seqs

  /** One row of the `$group` by category: `_id` is the raw category (`None` for documents
      without one, which the store groups under null). */
  datatype CategoryGroup = CategoryGroup(category: Option<string>, total: nat, completed: nat, pending: int)

  datatype Statistics = Statistics(
    total: nat,
    completed: nat,
    pending: int,
    overdue: nat,
    upcoming: nat,
    completionRate: nat,
    categories: seq<CategoryGroup>)

  function CompletedCount(ts: seq<Task>): nat {
    CountWhere(ts, IsCompleted)
  }

  function OverdueCount(ts: seq<Task>, now: int): nat {
    CountWhere(ts, (t: Task) => IsOverdueAt(t, now))
  }

  function UpcomingCount(ts: seq<Task>, now: int): nat {
    CountWhere(ts, (t: Task) => IsUpcomingAt(t, now))
  }

  /** `Math.round(completed / total * 100)`, or 0 for an empty collection. The result is the
      percentage rounded half up: it lies within half a point of the exact ratio, with the
      upper half-point excluded. */
  function CompletionRate(completed: nat, total: nat): (r: nat)
    requires completed <= total
    ensures r <= 100
    ensures total == 0 ==> r == 0
    ensures total > 0 ==> (2 * r - 1) * total <= 200 * completed < (2 * r + 1) * total
  {
    if total == 0 then 0
    else
      var a, b := 200 * completed + total, 2 * total;
      var q := a / b;
      assert q * b <= a < q * b + b;
      assert q * b == 2 * q * total;
      assert (2 * q - 1) * total == 2 * q * total - total;
      assert (2 * q + 1) * total == 2 * q * total + total;
      assert a <= 201 * total;
      assert q * b < 101 * b;
      MultiplyCancel(q, 101, b);
      q
  }

  lemma MultiplyCancel(x: int, y: int, b: int)
    requires b > 0 && x * b < y * b
    ensures x < y
  {
  }

  /** The number of tasks filed under category `c`. */
  function InCategory(ts: seq<Task>, c: Option<string>): nat {
    CountWhere(ts, (t: Task) => t.category == c)
  }

  function CompletedInCategory(ts: seq<Task>, c: Option<string>): nat {
    CountWhere(ts, (t: Task) => t.category == c && t.completed)
  }

  /** The raw categories of `ts`, in order. */
  function CategoryValues(ts: seq<Task>): (r: seq<Option<string>>)
    ensures |r| == |ts| && forall k :: 0 <= k < |ts| ==> r[k] == ts[k].category
  {
    if ts == [] then [] else [ts[0].category] + CategoryValues(ts[1..])
  }

  /** The group keys: each category that occurs, once. */
  function CategoryKeys(ts: seq<Task>): seq<Option<string>> {
    Dedup(CategoryValues(ts))
  }

  function Group(ts: seq<Task>, c: Option<string>): CategoryGroup {
    var total, completed := InCategory(ts, c), CompletedInCategory(ts, c);
    CategoryGroup(c, total, completed, total - completed)
  }

  function GroupsFor(ts: seq<Task>, keys: seq<Option<string>>): (gs: seq<CategoryGroup>)
    ensures |gs| == |keys| && forall i :: 0 <= i < |keys| ==> gs[i] == Group(ts, keys[i])
  {
    if keys == [] then [] else [Group(ts, keys[0])] + GroupsFor(ts, keys[1..])
  }

  /** The statistics of one snapshot of the collection at instant `now`. The headline
      counters are consistent (pending is what is not completed, the rate a percentage),
      and every category group is non-empty, reports pending as its total minus its
      completed, and counts the tasks filed under its raw category. */
  function Compute(ts: seq<Task>, now: int): (s: Statistics)
    ensures s.total == |ts| && s.completed == CompletedCount(ts) && s.completed <= s.total
    ensures s.pending == s.total - s.completed == CountWhere(ts, (t: Task) => !t.completed)
    ensures s.overdue == OverdueCount(ts, now) && s.upcoming == UpcomingCount(ts, now)
    ensures s.completionRate == CompletionRate(s.completed, s.total) && s.completionRate <= 100
    ensures s.total == 0 ==> s.completionRate == 0
    ensures forall i :: 0 <= i < |s.categories| ==> SoundGroup(ts, s.categories[i])
  {
    CountWhereComplement(ts, IsCompleted, (t: Task) => !t.completed);
    var total, completed := |ts|, CompletedCount(ts);
    Statistics(total, completed, total - completed, OverdueCount(ts, now), UpcomingCount(ts, now),
               CompletionRate(completed, total), Groups(ts))
  }

  /** The `$group` stage: one row per category that occurs. */
  function Groups(ts: seq<Task>): (gs: seq<CategoryGroup>)
    ensures forall i :: 0 <= i < |gs| ==> SoundGroup(ts, gs[i])
  {
    var keys := CategoryKeys(ts);
    GroupsSound(ts, keys);
    GroupsFor(ts, keys)
  }

  /** Every group of a key that occurs is sound. */
  lemma GroupsSound(ts: seq<Task>, keys: seq<Option<string>>)
    requires forall i :: 0 <= i < |keys| ==> keys[i] in CategoryValues(ts)
    ensures forall i :: 0 <= i < |GroupsFor(ts, keys)| ==> SoundGroup(ts, GroupsFor(ts, keys)[i])
  {
    var gs := GroupsFor(ts, keys);
    forall i | 0 <= i < |gs| ensures SoundGroup(ts, gs[i]) {
      GroupSound(ts, keys[i]);
    }
  }

  /** A category group that is non-empty, counts exactly the tasks filed under its raw
      category and exactly the completed ones among them (so never more completed tasks than
      it holds), and reports pending as its total minus its completed. */
  predicate SoundGroup(ts: seq<Task>, g: CategoryGroup) {
    g.completed <= g.total && g.pending == g.total - g.completed &&
    g.total >= 1 && g.total == InCategory(ts, g.category) &&
    g.completed == CompletedInCategory(ts, g.category)
  }

  /** No task is both overdue and upcoming, neither count includes a completed task, and
      together they never exceed the pending count. */
  lemma {:induction false} OverdueUpcomingDisjoint(ts: seq<Task>, now: int)
    ensures forall t: Task :: !(IsOverdueAt(t, now) && IsUpcomingAt(t, now))
    ensures forall t: Task :: (IsOverdueAt(t, now) || IsUpcomingAt(t, now)) ==> !t.completed
    ensures OverdueCount(ts, now) + UpcomingCount(ts, now) <= Compute(ts, now).pending
  {
    CountWhereDisjoint(ts, (t: Task) => IsOverdueAt(t, now), (t: Task) => IsUpcomingAt(t, now),
                       (t: Task) => !t.completed);
  }

  /** The group of a category that occurs is non-empty and never counts more completed
      tasks than it holds. */
  lemma {:induction false} GroupSound(ts: seq<Task>, c: Option<string>)
    requires c in CategoryValues(ts)
    ensures 1 <= Group(ts, c).total && Group(ts, c).completed <= Group(ts, c).total
    ensures Group(ts, c).pending == Group(ts, c).total - Group(ts, c).completed
  {
    CountWhereMonotone(ts, (t: Task) => t.category == c && t.completed, (t: Task) => t.category == c);
    var k :| 0 <= k < |CategoryValues(ts)| && CategoryValues(ts)[k] == c;
    CountAtLeastOne(ts, (t: Task) => t.category == c, k);
  }

  lemma {:induction false} CountAtLeastOne<T>(s: seq<T>, p: T -> bool, k: nat)
    requires k < |s| && p(s[k])
    ensures CountWhere(s, p) >= 1
  {
    if k > 0 {
      CountAtLeastOne(s[1..], p, k - 1);
    }
  }

  /** The group keys are distinct, use the raw category value, and cover every task. */
  lemma GroupKeysDistinctAndComplete(ts: seq<Task>, now: int)
    ensures var gs := Compute(ts, now).categories;
      (forall i, j :: 0 <= i < j < |gs| ==> gs[i].category != gs[j].category) &&
      (forall k :: 0 <= k < |ts| ==> exists i :: 0 <= i < |gs| && gs[i].category == ts[k].category)
  {
    var keys := CategoryKeys(ts);
    forall k | 0 <= k < |ts| ensures ts[k].category in keys {
      assert CategoryValues(ts)[k] == ts[k].category;
    }
  }

  function SumTotals(gs: seq<CategoryGroup>): int {
    if gs == [] then 0 else gs[0].total + SumTotals(gs[1..])
  }

  function KeySum(ts: seq<Task>, keys: seq<Option<string>>): int {
    if keys == [] then 0 else InCategory(ts, keys[0]) + KeySum(ts, keys[1..])
  }

  function Indicator(c: Option<string>, keys: seq<Option<string>>): int {
    if keys == [] then 0 else (if keys[0] == c then 1 else 0) + Indicator(c, keys[1..])
  }

  lemma {:induction false} IndicatorOnce(c: Option<string>, keys: seq<Option<string>>)
    requires NoDuplicates(keys)
    ensures Indicator(c, keys) == if c in keys then 1 else 0
  {
    if keys != [] {
      assert NoDuplicates(keys[1..]) by {
        forall i, j | 0 <= i < j < |keys[1..]| ensures keys[1..][i] != keys[1..][j] {
          assert keys[1..][i] == keys[i + 1] && keys[1..][j] == keys[j + 1];
        }
      }
      IndicatorOnce(c, keys[1..]);
      if keys[0] == c {
        forall j | 0 <= j < |keys[1..]| ensures keys[1..][j] != c {
          assert keys[1..][j] == keys[j + 1];
        }
      }
      assert keys == [keys[0]] + keys[1..];
    }
  }

  lemma {:induction false} KeySumStep(ts: seq<Task>, keys: seq<Option<string>>)
    requires ts != []
    ensures KeySum(ts, keys) == Indicator(ts[0].category, keys) + KeySum(ts[1..], keys)
  {
    if keys != [] {
      KeySumStep(ts, keys[1..]);
    }
  }

  /** Summing the category counts over distinct keys that cover every task counts each
      task exactly once. */
  lemma {:induction false} KeySumCountsAll(ts: seq<Task>, keys: seq<Option<string>>)
    requires NoDuplicates(keys)
    requires forall k :: 0 <= k < |ts| ==> ts[k].category in keys
    ensures KeySum(ts, keys) == |ts|
  {
    if ts == [] {
      KeySumEmpty(ts, keys);
    } else {
      KeySumStep(ts, keys);
      IndicatorOnce(ts[0].category, keys);
      forall k | 0 <= k < |ts[1..]| ensures ts[1..][k].category in keys {
        assert ts[1..][k] == ts[k + 1];
      }
      KeySumCountsAll(ts[1..], keys);
    }
  }

  lemma {:induction false} KeySumEmpty(ts: seq<Task>, keys: seq<Option<string>>)
    requires ts == []
    ensures KeySum(ts, keys) == 0
  {
    if keys != [] {
      KeySumEmpty(ts, keys[1..]);
    }
  }

  lemma {:induction false} SumTotalsGroupsFor(ts: seq<Task>, keys: seq<Option<string>>)
    ensures SumTotals(GroupsFor(ts, keys)) == KeySum(ts, keys)
  {
    if keys != [] {
      SumTotalsGroupsFor(ts, keys[1..]);
      assert GroupsFor(ts, keys)[1..] == GroupsFor(ts, keys[1..]);
    }
  }

  /** The group totals add up to the total number of tasks. */
  lemma GroupTotalsSumToTotal(ts: seq<Task>, now: int)
    ensures SumTotals(Compute(ts, now).categories) == Compute(ts, now).total
  {
    var keys := CategoryKeys(ts);
    forall k | 0 <= k < |ts| ensures ts[k].category in keys {
      assert CategoryValues(ts)[k] == ts[k].category;
    }
    SumTotalsGroupsFor(ts, keys);
    KeySumCountsAll(ts, keys);
  }
}
