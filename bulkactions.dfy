/** The bulk-action bar: a selection of task identifiers kept as a JavaScript `Set` (each
    identifier once, in insertion order), select-all, per-task toggling, and the request
    sent for a bulk action. */
module BulkActions {
  import opened Tasks
  import opened Seqs

  datatype Action = MarkCompleted | MarkPending | Delete

  /** The `action` string of the request body. */
  function ActionName(a: Action): (s: string)
    ensures a.MarkCompleted? <==> s == "markCompleted"
    ensures a.MarkPending? <==> s == "markPending"
    ensures a.Delete? <==> s == "delete"
  {
    match a
    case MarkCompleted => "markCompleted"
    case MarkPending => "markPending"
    case Delete => "delete"
  }

  /** The body `{ action, todoIds: Array.from(selectedTodos) }`. */
  datatype Request = Request(action: string, todoIds: seq<Id>)

  /** What a bulk action did: refused for an empty selection, cancelled at the
      confirmation, or sent (and whether the response was `ok`). */
  datatype Outcome = NothingSelected | Cancelled | Sent(request: Request, ok: bool)

  const SelectFirst := "Please select some tasks first"

  /** `set.delete(id)`: the other identifiers in their order. */
  function Remove(s: seq<Id>, id: Id): (r: seq<Id>)
    ensures forall x :: x in r <==> x in s && x != id
    ensures id !in s ==> r == s
    ensures |r| <= |s|
    ensures NoDuplicates(s) ==> NoDuplicates(r)
  {
    if s == [] then []
    else if s[0] == id then Remove(s[1..], id)
    else
      var rest := Remove(s[1..], id);
      assert NoDuplicates(s) ==> s[0] !in s[1..] && NoDuplicates(s[1..]);
      assert forall k :: 1 <= k < |[s[0]] + rest| ==> ([s[0]] + rest)[k] in rest;
      [s[0]] + rest
  }

  /** Removing an identifier present once shortens the selection by one. */
  lemma {:induction false} RemovePresent(s: seq<Id>, id: Id)
    requires NoDuplicates(s) && id in s
    ensures |Remove(s, id)| == |s| - 1
  {
    if s[0] == id {
      assert id !in s[1..];
    } else {
      RemovePresent(s[1..], id);
    }
  }

  /** Adding an absent identifier and removing it again gives the selection back. */
  lemma {:induction false} RemoveAppended(s: seq<Id>, id: Id)
    requires id !in s
    ensures Remove(s + [id], id) == s
  {
    if s == [] {
      assert [] + [id] == [id];
    } else {
      assert (s + [id])[1..] == s[1..] + [id];
      RemoveAppended(s[1..], id);
    }
  }

  /** `toggleSelectTodo(id)` on a selection: delete when present, add at the end when not. */
  function Toggled(s: seq<Id>, id: Id): (r: seq<Id>)
    requires NoDuplicates(s)
    ensures NoDuplicates(r)
    ensures id in r <==> id !in s
    ensures forall x :: x != id ==> (x in r <==> x in s)
    ensures id !in s ==> r == s + [id]
    ensures |r| == if id in s then |s| - 1 else |s| + 1
  {
    if id in s then
      RemovePresent(s, id);
      Remove(s, id)
    else
      s + [id]
  }

  /** Toggling the same identifier twice keeps the same identifiers selected, and the very
      same sequence when the identifier was not selected before. A present identifier comes
      back at the end, where `Set` insertion order puts it. */
  lemma ToggleTwice(s: seq<Id>, id: Id)
    requires NoDuplicates(s)
    ensures forall x :: x in Toggled(Toggled(s, id), id) <==> x in s
    ensures id !in s ==> Toggled(Toggled(s, id), id) == s
    ensures id in s ==> Toggled(Toggled(s, id), id) == Remove(s, id) + [id]
  {
    if id !in s {
      RemoveAppended(s, id);
    }
  }

  /** The identifiers of the listed tasks, in list order. */
  function TodoIds(todos: seq<Task>): (r: seq<Id>)
    ensures |r| == |todos| && forall k :: 0 <= k < |todos| ==> r[k] == todos[k].id
  {
    seq(|todos|, k requires 0 <= k < |todos| => todos[k].id)
  }

  /** `toggleSelectAll` on a selection: clear when its size equals the number of tasks,
      otherwise `new Set(todos.map(id))`. */
  function SelectAll(s: seq<Id>, todos: seq<Task>): (r: seq<Id>)
    ensures NoDuplicates(r)
    ensures |s| == |todos| ==> r == []
    ensures |s| != |todos| ==> forall x :: x in r <==> exists k :: 0 <= k < |todos| && todos[k].id == x
  {
    if |s| == |todos| then []
    else
      var ids := TodoIds(todos);
      var r := Dedup(ids);
      assert forall x :: x in r ==> exists k :: 0 <= k < |todos| && todos[k].id == x by {
        forall x | x in r
          ensures exists k :: 0 <= k < |todos| && todos[k].id == x
        {
          var k :| 0 <= k < |ids| && ids[k] == x;
          assert todos[k].id == x;
        }
      }
      assert forall k :: 0 <= k < |todos| ==> todos[k].id in r by {
        forall k | 0 <= k < |todos|
          ensures todos[k].id in r
        {
          assert ids[k] == todos[k].id;
        }
      }
      r
  }

  /** With distinct task identifiers, selecting all selects exactly one entry per task, so
      a second select-all clears the selection. */
  lemma SelectAllTwiceClears(s: seq<Id>, todos: seq<Task>)
    requires UniqueIds(todos) && |s| != |todos|
    ensures |SelectAll(s, todos)| == |todos|
    ensures SelectAll(SelectAll(s, todos), todos) == []
  {
    var ids := TodoIds(todos);
    assert NoDuplicates(ids);
    DedupDistinct(ids);
  }

  /** The first-occurrence filter keeps a sequence without duplicates as it is. */
  lemma {:induction false} DedupDistinct(s: seq<Id>)
    requires NoDuplicates(s)
    ensures Dedup(s) == s
  {
    if s != [] {
      var init := s[..|s| - 1];
      assert NoDuplicates(init);
      DedupDistinct(init);
      assert s[|s| - 1] !in init;
      assert init + [s[|s| - 1]] == s;
    }
  }

  /** `allSelected` compares sizes only: a selection of the same size as the list counts
      as all selected even when it holds other identifiers. */
  predicate AllSelected(s: seq<Id>, todos: seq<Task>) {
    |s| == |todos|
  }

  predicate SomeSelected(s: seq<Id>) {
    |s| > 0
  }

  lemma AllSelectedBySizeOnly(t: Task, other: Id)
    requires other != t.id
    ensures AllSelected([other], [t]) && t.id !in [other]
  {
  }

  /** The component's selection state. */
  class Selection {
    var selected: seq<Id>

    ghost predicate Valid()
      reads this
    {
      NoDuplicates(selected)
    }

    constructor ()
      ensures Valid() && selected == []
    {
      selected := [];
    }

    method ToggleSelectAll(todos: seq<Task>)
      requires Valid()
      modifies this
      ensures Valid()
      ensures selected == SelectAll(old(selected), todos)
    {
      if |selected| == |todos| {
        selected := [];
      } else {
        selected := SelectAll(selected, todos);
      }
    }

    /** Copies the selection, deletes or adds `id` in the copy, and installs the copy. */
    method ToggleSelectTodo(id: Id)
      requires Valid()
      modifies this
      ensures Valid()
      ensures selected == Toggled(old(selected), id)
    {
      var next := selected;
      if id in next {
        next := Remove(next, id);
        RemovePresent(selected, id);
      } else {
        next := next + [id];
      }
      selected := next;
    }

    /** `performBulkAction(action)`, with the user's answer to the confirmation and whether
        the response was `ok` (a request that throws counts as not `ok`). Only a successful
        request clears the selection. */
    method PerformBulkAction(action: Action, confirmed: bool, responseOk: bool) returns (r: Outcome)
      requires Valid()
      modifies this
      ensures Valid()
      ensures old(selected) == [] ==> r == NothingSelected && selected == old(selected)
      ensures old(selected) != [] && !confirmed ==> r == Cancelled && selected == old(selected)
      ensures old(selected) != [] && confirmed ==>
        r == Sent(Request(ActionName(action), old(selected)), responseOk) &&
        selected == (if responseOk then [] else old(selected))
    {
      if |selected| == 0 {
        return NothingSelected;
      }
      if !confirmed {
        return Cancelled;
      }
      r := Sent(Request(ActionName(action), selected), responseOk);
      if responseOk {
        selected := [];
      }
    }
  }
}
