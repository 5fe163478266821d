/** The bulk route (`POST /api/todos/bulk`): one action applied to every stored task whose
    identifier is in the request's `todoIds`. */
module Bulk {
  import opened Wrappers
  import opened Text
  import opened Tasks
  import opened Seqs
  import opened Store

  /** The request body: `action` as any JSON value, `todoIds` when it is an array. */
  datatype BulkBody = BulkBody(action: Scalar, todoIds: Option<seq<Id>>)

  datatype BulkResponse = BadRequest(error: string) | Done(message: string, affected: nat)

  const MissingInput := "Action and todoIds array are required"
  const InvalidAction := "Invalid action"

  /** The identifiers of the array, duplicates collapsed: what `{$in: todoIds}` matches. */
  function IdSet(ids: seq<Id>): (s: set<Id>)
    ensures forall k :: 0 <= k < |ids| ==> ids[k] in s
    ensures forall x :: x in s ==> x in ids
    ensures |s| <= |ids|
  {
    if ids == [] then {} else {ids[0]} + IdSet(ids[1..])
  }

  /** The three values the route's `switch` recognises. */
  predicate IsKnownAction(a: Scalar) {
    a == Str("markCompleted") || a == Str("markPending") || a == Str("delete")
  }

  function SuccessMessage(action: string, n: nat): string {
    "Successfully " + action + " " + NatToString(n) + " todos"
  }

  /** With unique identifiers, the documents `{$in: ids}` matches are exactly as many as the
      requested identifiers that are present: absent ones are ignored and none counts twice. */
  lemma {:induction false} MatchedCountIsPresentIds(ts: seq<Task>, ids: set<Id>)
    requires UniqueIds(ts)
    ensures MatchedCount(ts, ids) == |ids * IdsOf(ts)|
  {
    if ts == [] {
      assert ids * IdsOf(ts) == {};
    } else {
      var rest := ts[1..];
      assert UniqueIds(rest) by {
        forall i, j | 0 <= i < j < |rest| ensures rest[i].id != rest[j].id {
          assert rest[i] == ts[i + 1] && rest[j] == ts[j + 1];
        }
      }
      MatchedCountIsPresentIds(rest, ids);
      assert ts[0].id !in IdsOf(rest) by {
        IdsOfMembers(rest, ts[0].id);
        forall k | 0 <= k < |rest| ensures rest[k].id != ts[0].id {
          assert rest[k] == ts[k + 1];
        }
      }
      if ts[0].id in ids {
        assert ids * IdsOf(ts) == (ids * IdsOf(rest)) + {ts[0].id};
      } else {
        assert ids * IdsOf(ts) == ids * IdsOf(rest);
      }
    }
  }

  /** Every identifier in `IdsOf(ts)` belongs to some task of `ts`. */
  lemma {:induction false} IdsOfMembers(ts: seq<Task>, x: Id)
    ensures x in IdsOf(ts) <==> exists k :: 0 <= k < |ts| && ts[k].id == x
  {
    if ts != [] {
      IdsOfMembers(ts[1..], x);
      if x in IdsOf(ts[1..]) {
        var k :| 0 <= k < |ts[1..]| && ts[1..][k].id == x;
        assert ts[k + 1].id == x;
      }
      if exists k :: 0 <= k < |ts| && ts[k].id == x {
        var k :| 0 <= k < |ts| && ts[k].id == x;
        if k > 0 {
          assert ts[1..][k - 1].id == x;
        }
      }
    }
  }

  /** A deletion removes exactly the matched documents: the survivors are the tasks whose
      identifier was not requested, and their number falls by the matched count. */
  lemma {:induction false} DeleteRemovesMatched(ts: seq<Task>, ids: set<Id>)
    ensures forall k :: 0 <= k < |WithoutIds(ts, ids)| ==> WithoutIds(ts, ids)[k].id !in ids
    ensures forall k :: 0 <= k < |ts| && ts[k].id !in ids ==> ts[k] in WithoutIds(ts, ids)
    ensures |WithoutIds(ts, ids)| == |ts| - MatchedCount(ts, ids)
  {
    CountWhereComplement(ts, (t: Task) => t.id in ids, (t: Task) => t.id !in ids);
  }

  /** An empty identifier list matches nothing: no action changes the store or counts. */
  lemma {:induction false} EmptyIdsAffectNothing(ts: seq<Task>, ids: set<Id>, v: bool, now: int)
    requires ids == {}
    ensures SetCompleted(ts, ids, v, now) == ts
    ensures WithoutIds(ts, ids) == ts
    ensures MatchedCount(ts, ids) == 0 && ModifiedCount(ts, ids, v, now) == 0
  {
    WhereAll(ts, (t: Task) => t.id !in ids);
    CountWhereNone(ts, (t: Task) => t.id in ids);
    CountWhereNone(ts, (t: Task) => t.id in ids && (t.completed != v || t.updatedAt != now));
  }

  lemma {:induction false} WhereAll<T>(s: seq<T>, p: T -> bool)
    requires forall k :: 0 <= k < |s| ==> p(s[k])
    ensures Where(s, p) == s
  {
    if s != [] {
      WhereAll(s[1..], p);
      assert s == [s[0]] + s[1..];
    }
  }

  /** The route. Bad input and unknown actions are answered with 400 before the store is
      touched; otherwise one `updateMany` or `deleteMany` runs and its count is reported. */
  method Perform(store: TaskStore, body: BulkBody, now: int) returns (r: BulkResponse)
    requires store.Valid()
    modifies store
    ensures store.Valid() && store.nextId == old(store.nextId)
    ensures !Truthy(body.action) || body.todoIds.None? ==>
      r == BadRequest(MissingInput) && store.tasks == old(store.tasks)
    ensures Truthy(body.action) && body.todoIds.Some? && body.action == Str("markCompleted") ==>
      store.tasks == SetCompleted(old(store.tasks), IdSet(body.todoIds.value), true, now) &&
      r.Done? && r.affected == ModifiedCount(old(store.tasks), IdSet(body.todoIds.value), true, now) &&
      r.message == SuccessMessage("markCompleted", r.affected)
    ensures Truthy(body.action) && body.todoIds.Some? && body.action == Str("markPending") ==>
      store.tasks == SetCompleted(old(store.tasks), IdSet(body.todoIds.value), false, now) &&
      r.Done? && r.affected == ModifiedCount(old(store.tasks), IdSet(body.todoIds.value), false, now) &&
      r.message == SuccessMessage("markPending", r.affected)
    ensures Truthy(body.action) && body.todoIds.Some? && body.action == Str("delete") ==>
      store.tasks == WithoutIds(old(store.tasks), IdSet(body.todoIds.value)) &&
      r.Done? && r.affected == MatchedCount(old(store.tasks), IdSet(body.todoIds.value)) &&
      r.message == SuccessMessage("delete", r.affected)
    ensures Truthy(body.action) && body.todoIds.Some? && !IsKnownAction(body.action) ==>
      r == BadRequest(InvalidAction) && store.tasks == old(store.tasks)
    ensures r.Done? ==> r.affected <= |IdSet(body.todoIds.value) * IdsOf(old(store.tasks))|
  {
    if !Truthy(body.action) || body.todoIds.None? {
      return BadRequest(MissingInput);
    }
    var ids := IdSet(body.todoIds.value);
    MatchedCountIsPresentIds(store.tasks, ids);
    var affected: nat;
    if body.action == Str("markCompleted") {
      affected := store.UpdateMany(ids, true, now);
      r := Done(SuccessMessage("markCompleted", affected), affected);
    } else if body.action == Str("markPending") {
      affected := store.UpdateMany(ids, false, now);
      r := Done(SuccessMessage("markPending", affected), affected);
    } else if body.action == Str("delete") {
      DeleteRemovesMatched(store.tasks, ids);
      affected := store.DeleteMany(ids);
      r := Done(SuccessMessage("delete", affected), affected);
    } else {
      r := BadRequest(InvalidAction);
    }
  }
}
