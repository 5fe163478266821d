/** The document store as the routes use it: the collection of tasks held in memory,
    with the primitives `create`, `updateMany`, `deleteMany` and `deleteMany({})`. */
module Store {
  import opened Wrappers
  import opened Tasks
  import opened Seqs
  import opened Sorting

  /** `Todo.create` fails validation when the required title is the empty string, and
      fails casting when the due date is an invalid date. */
  predicate Acceptable(d: Draft) {
    d.title != "" && !d.dueDate.Unparseable?
  }

  function DueOf(d: DateInput): (r: Option<int>)
    ensures r.Some? <==> d.Parsed?
  {
    if d.Parsed? then Some(d.instant) else None
  }

  /** The document the store keeps for an accepted draft: a fresh identifier, both
      timestamps set to the creation instant, no AI fields. */
  function Record(d: Draft, id: Id, now: int): (t: Task)
    ensures t.id == id && t.title == d.title && t.completed == d.completed
    ensures t.description == Some(d.description) && t.category == Some(d.category)
    ensures t.dueDate == DueOf(d.dueDate)
    ensures t.createdAt == now && t.updatedAt == now
  {
    Task(id, d.title, Some(d.description), d.completed, Some(d.category), DueOf(d.dueDate), None, None, now, now)
  }

  /** `updateMany({_id: {$in: ids}}, {completed: v})` with timestamps on: every matched
      document gets the new state and a refreshed `updatedAt`; the rest stay as they were. */
  function SetCompleted(ts: seq<Task>, ids: set<Id>, v: bool, now: int): (r: seq<Task>)
    ensures |r| == |ts|
    ensures forall k :: 0 <= k < |ts| && ts[k].id in ids ==> r[k] == ts[k].(completed := v, updatedAt := now)
    ensures forall k :: 0 <= k < |ts| && ts[k].id !in ids ==> r[k] == ts[k]
  {
    seq(|ts|, k requires 0 <= k < |ts| => if ts[k].id in ids then ts[k].(completed := v, updatedAt := now) else ts[k])
  }

  /** The number of documents matched by `{_id: {$in: ids}}`. */
  function MatchedCount(ts: seq<Task>, ids: set<Id>): nat {
    CountWhere(ts, (t: Task) => t.id in ids)
  }

  /** `modifiedCount` of that update: matched documents whose stored value actually changes.
      The update also stamps `updatedAt`, so it never modifies more than it matches, and it
      modifies every matched document unless one was already stamped at this very instant. */
  function ModifiedCount(ts: seq<Task>, ids: set<Id>, v: bool, now: int): (c: nat)
    ensures c <= MatchedCount(ts, ids)
    ensures (forall k :: 0 <= k < |ts| ==> ts[k].updatedAt != now) ==> c == MatchedCount(ts, ids)
  {
    var changes := (t: Task) => t.id in ids && (t.completed != v || t.updatedAt != now);
    var matched := (t: Task) => t.id in ids;
    CountWhereMonotone(ts, changes, matched);
    if forall k :: 0 <= k < |ts| ==> ts[k].updatedAt != now then
      WhereAgreeOn(ts, changes, matched);
      CountWhere(ts, changes)
    else
      CountWhere(ts, changes)
  }

  /** `deleteMany({_id: {$in: ids}})`: the documents left behind. */
  function WithoutIds(ts: seq<Task>, ids: set<Id>): seq<Task> {
    Where(ts, (t: Task) => t.id !in ids)
  }

  /** `find({}).sort({createdAt: -1})`: every stored task, newest first. */
  function NewestFirst(ts: seq<Task>): (r: seq<Task>)
    ensures |r| == |ts| && multiset(r) == multiset(ts)
    ensures forall i, j :: 0 <= i < j < |r| ==> r[i].createdAt >= r[j].createdAt
  {
    var r := SortByKey(ts, CreatedAtKey, true);
    SortedBySortByKey(ts, CreatedAtKey, true);
    NewestFirstOrder(r);
    r
  }

  lemma NewestFirstOrder(s: seq<Task>)
    requires SortedBy(s, CreatedAtKey, true)
    ensures forall i, j :: 0 <= i < j < |s| ==> s[i].createdAt >= s[j].createdAt
  {
    forall i, j | 0 <= i < j < |s| ensures s[i].createdAt >= s[j].createdAt {
      assert LexLeq(CreatedAtKey(s[j]), CreatedAtKey(s[i]));
    }
  }

  /** Sorting neither loses nor invents a task. */
  lemma NewestFirstSameTasks(ts: seq<Task>)
    ensures forall k :: 0 <= k < |ts| ==> NewestFirst(ts)[k] in ts
    ensures forall k :: 0 <= k < |ts| ==> ts[k] in NewestFirst(ts)
  {
    SortByKeySameElements(ts, CreatedAtKey, true);
  }

  /** The store's invariant: identifiers are unique and below the next one to hand out,
      and no title is empty (the schema's `required`). */
  ghost predicate WellFormed(ts: seq<Task>, nextId: Id) {
    UniqueIds(ts) &&
    (forall k :: 0 <= k < |ts| ==> ts[k].id < nextId && ts[k].title != "")
  }

  lemma {:induction false} WhereWellFormed(ts: seq<Task>, nextId: Id, p: Task -> bool)
    requires WellFormed(ts, nextId)
    ensures WellFormed(Where(ts, p), nextId)
  {
    if ts != [] {
      WhereWellFormed(ts[1..], nextId, p);
      var rest := Where(ts[1..], p);
      if p(ts[0]) {
        var r := [ts[0]] + rest;
        forall j | 0 <= j < |rest| ensures rest[j].id != ts[0].id {
          var k :| 0 <= k < |ts[1..]| && ts[1..][k] == rest[j];
          assert ts[k + 1] == rest[j];
        }
        forall i, j | 0 <= i < j < |r| ensures r[i].id != r[j].id {
          if i > 0 {
            assert r[i] == rest[i - 1];
          }
          assert r[j] == rest[j - 1];
        }
      }
    }
  }

  class TaskStore {
    var tasks: seq<Task>
    var nextId: Id

    ghost predicate Valid()
      reads this
    {
      WellFormed(tasks, nextId)
    }

    constructor ()
      ensures Valid() && tasks == [] && nextId == 0
    {
      tasks := [];
      nextId := 0;
    }

    /** `Todo.create(d)`: either the record is appended under a fresh identifier, or the
        store refuses the draft and nothing changes. */
    method Create(d: Draft, now: int) returns (created: Option<Task>)
      requires Valid()
      modifies this
      ensures Valid()
      ensures Acceptable(d) ==> created == Some(Record(d, old(nextId), now))
      ensures Acceptable(d) ==> tasks == old(tasks) + [created.value] && nextId == old(nextId) + 1
      ensures !Acceptable(d) ==> created == None && tasks == old(tasks) && nextId == old(nextId)
    {
      if Acceptable(d) {
        var t := Record(d, nextId, now);
        tasks := tasks + [t];
        nextId := nextId + 1;
        created := Some(t);
      } else {
        created := None;
      }
    }

    /** `Todo.updateMany({_id: {$in: ids}}, {completed: v})`, returning `modifiedCount`. */
    method UpdateMany(ids: set<Id>, v: bool, now: int) returns (modified: nat)
      requires Valid()
      modifies this
      ensures Valid()
      ensures tasks == SetCompleted(old(tasks), ids, v, now) && nextId == old(nextId)
      ensures modified == ModifiedCount(old(tasks), ids, v, now)
    {
      modified := ModifiedCount(tasks, ids, v, now);
      tasks := SetCompleted(tasks, ids, v, now);
    }

    /** `Todo.deleteMany({_id: {$in: ids}})`, returning `deletedCount`. */
    method DeleteMany(ids: set<Id>) returns (deleted: nat)
      requires Valid()
      modifies this
      ensures Valid()
      ensures tasks == WithoutIds(old(tasks), ids) && nextId == old(nextId)
      ensures deleted == |old(tasks)| - |tasks|
    {
      var rest := WithoutIds(tasks, ids);
      WhereWellFormed(tasks, nextId, (t: Task) => t.id !in ids);
      deleted := |tasks| - |rest|;
      tasks := rest;
    }

    /** `Todo.deleteMany({})`: the collection is emptied. */
    method DeleteAll() returns (deleted: nat)
      requires Valid()
      modifies this
      ensures Valid()
      ensures tasks == [] && nextId == old(nextId) && deleted == |old(tasks)|
    {
      deleted := |tasks|;
      tasks := [];
    }
  }
}
