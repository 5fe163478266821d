/** The export and import route (`/api/todos/export`): `GET` builds a download envelope
    of every task, newest first; `POST` reconciles a list of task objects with the store,
    item by item, in merge or replace mode. */
module ImportExport {
  import opened Wrappers
  import opened Text
  import opened Tasks
  import opened Seqs
  import opened Sorting
  import opened Store
  import Stats

  /** One exported task: absent texts become `''`, an absent due date `null` (`None`). */
  datatype ExportRecord = ExportRecord(
    title: string,
    description: string,
    category: string,
    completed: bool,
    dueDate: Option<int>,
    createdAt: int,
    updatedAt: int)

  datatype Envelope = Envelope(exportDate: int, totalTasks: nat, completedTasks: nat, tasks: seq<ExportRecord>)

  function ExportRecordOf(t: Task): ExportRecord {
    ExportRecord(t.title, t.description.GetOr(""), t.category.GetOr(""), t.completed, t.dueDate,
                 t.createdAt, t.updatedAt)
  }

  /** `todos.map(...)`. */
  function ExportRecords(ts: seq<Task>): (r: seq<ExportRecord>)
    ensures |r| == |ts|
    ensures forall k :: 0 <= k < |ts| ==> r[k] == ExportRecordOf(ts[k])
  {
    seq(|ts|, k requires 0 <= k < |ts| => ExportRecordOf(ts[k]))
  }

  lemma ExportRecordsAppend(a: seq<Task>, b: seq<Task>)
    ensures ExportRecords(a + b) == ExportRecords(a) + ExportRecords(b)
  {
  }

  /** Reordering the tasks reorders their records: each record occurs as often as the
      tasks it comes from. */
  lemma {:induction false} RecordsPermutation(a: seq<Task>, b: seq<Task>)
    requires multiset(a) == multiset(b)
    ensures multiset(ExportRecords(a)) == multiset(ExportRecords(b))
    decreases |a|
  {
    if a == [] {
      assert |b| == |multiset(b)| == 0;
    } else {
      var x := a[0];
      assert x in multiset(b);
      var i :| 0 <= i < |b| && b[i] == x;
      var rest := b[..i] + b[i + 1..];
      assert a == [x] + a[1..];
      MultisetWithout(b, i);
      MultisetCancel(multiset(a[1..]), multiset(rest), x);
      RecordsPermutation(a[1..], rest);
      ExportRecordsAppend([x], a[1..]);
      assert ExportRecords([x]) == [ExportRecordOf(x)];
      RecordsWithout(b, i);
      calc {
        multiset(ExportRecords(a));
        multiset(ExportRecords([x]) + ExportRecords(a[1..]));
        multiset{ExportRecordOf(x)} + multiset(ExportRecords(a[1..]));
        multiset{ExportRecordOf(x)} + multiset(ExportRecords(rest));
        multiset(ExportRecords(b));
      }
    }
  }

  /** The records of `b` are those of `b` without element `i`, plus that element's. */
  lemma RecordsWithout(b: seq<Task>, i: nat)
    requires i < |b|
    ensures multiset(ExportRecords(b)) ==
      multiset(ExportRecords(b[..i] + b[i + 1..])) + multiset{ExportRecordOf(b[i])}
  {
    assert b == b[..i] + [b[i]] + b[i + 1..];
    ExportRecordsAppend(b[..i] + [b[i]], b[i + 1..]);
    ExportRecordsAppend(b[..i], [b[i]]);
    ExportRecordsAppend(b[..i], b[i + 1..]);
    MultisetWithout(ExportRecords(b), i);
  }

  /** The export envelope at instant `now`. */
  function Export(ts: seq<Task>, now: int): (e: Envelope)
    ensures e.exportDate == now
    ensures e.totalTasks == |ts| && e.completedTasks == Stats.CompletedCount(ts)
    ensures e.completedTasks <= e.totalTasks
    ensures |e.tasks| == |ts|
    ensures forall i, j :: 0 <= i < j < |e.tasks| ==> e.tasks[i].createdAt >= e.tasks[j].createdAt
    ensures multiset(e.tasks) == multiset(ExportRecords(ts))
  {
    var todos := NewestFirst(ts);
    CountWherePermutation(todos, ts, IsCompleted);
    RecordsPermutation(todos, ts);
    Envelope(now, |todos|, Stats.CompletedCount(todos), ExportRecords(todos))
  }

  /** Every exported record is the record of a stored task. */
  lemma ExportHoldsOnlyStoredTasks(ts: seq<Task>, now: int)
    ensures forall k :: 0 <= k < |Export(ts, now).tasks| ==>
      exists j :: 0 <= j < |ts| && Export(ts, now).tasks[k] == ExportRecordOf(ts[j])
  {
    var todos := NewestFirst(ts);
    var recs := ExportRecords(todos);
    assert Export(ts, now).tasks == recs;
    NewestFirstSameTasks(ts);
    forall k | 0 <= k < |recs| ensures exists j :: 0 <= j < |ts| && recs[k] == ExportRecordOf(ts[j]) {
      assert todos[k] in ts;
      var j :| 0 <= j < |ts| && ts[j] == todos[k];
      assert recs[k] == ExportRecordOf(ts[j]);
    }
  }

  /** Every stored task is exported. */
  lemma ExportHoldsEveryTask(ts: seq<Task>, now: int)
    ensures forall j :: 0 <= j < |ts| ==>
      exists k :: 0 <= k < |Export(ts, now).tasks| && Export(ts, now).tasks[k] == ExportRecordOf(ts[j])
  {
    var todos := NewestFirst(ts);
    var recs := ExportRecords(todos);
    assert Export(ts, now).tasks == recs;
    NewestFirstSameTasks(ts);
    forall j | 0 <= j < |ts| ensures exists k :: 0 <= k < |recs| && recs[k] == ExportRecordOf(ts[j]) {
      assert ts[j] in todos;
      var k :| 0 <= k < |todos| && todos[k] == ts[j];
      assert recs[k] == ExportRecordOf(ts[j]);
    }
  }

  /** One element of the imported `tasks` array, as far as the route reads it. A `title`,
      `description` or `category` that is absent or `null` is `None`. An element that is not
      an object has no fields and is an item whose title is `None`. */
  datatype ImportItem = ImportItem(
    title: Option<string>,
    description: Option<string>,
    category: Option<string>,
    completed: Scalar,
    dueDate: DateInput)

  /** The request body: `tasks` is `None` when it is not an array; `mode` is the raw value. */
  datatype ImportBody = ImportBody(tasks: Option<seq<ImportItem>>, mode: Scalar)

  datatype Tally = Tally(imported: nat, skipped: nat, errors: nat)

  datatype ImportResponse = NotAnArray(error: string) | Completed(message: string, result: Tally)

  const TasksMustBeArray := "Tasks must be an array"

  /** `mode` defaults to `'merge'` only when it is absent. */
  predicate IsMerge(mode: Scalar) {
    mode == Undefined || mode == Str("merge")
  }

  predicate IsReplace(mode: Scalar) {
    mode == Str("replace")
  }

  /** `taskData.title` is truthy. */
  predicate HasTitle(it: ImportItem) {
    it.title.Some? && it.title.value != ""
  }

  /** The duplicate query `{title, description: description || '', category: category || ''}`
      holds of a stored task. The title is the raw one, not the trimmed one. */
  predicate SameEntry(t: Task, it: ImportItem) {
    it.title == Some(t.title) &&
    t.description == Some(it.description.GetOr("")) &&
    t.category == Some(it.category.GetOr(""))
  }

  /** `Todo.findOne(query)` finds a document. */
  predicate HasEntry(ts: seq<Task>, it: ImportItem) {
    exists k :: 0 <= k < |ts| && SameEntry(ts[k], it)
  }

  /** The `todoData` object of one item. */
  function Normalize(it: ImportItem): (d: Draft)
    ensures d.title == Trim(it.title.GetOr(""))
    ensures d.description == Trim(it.description.GetOr("")) && d.category == Trim(it.category.GetOr(""))
    ensures d.completed == Truthy(it.completed) && d.dueDate == it.dueDate
  {
    Draft(Trim(it.title.GetOr("")), Trim(it.description.GetOr("")), Trim(it.category.GetOr("")),
          Truthy(it.completed), it.dueDate)
  }

  /** An item that can never be inserted, whatever the store holds: no title, or a draft
      the store refuses. */
  predicate Rejected(it: ImportItem) {
    !HasTitle(it) || !Acceptable(Normalize(it))
  }

  /** The store and the counters while the loop runs. */
  datatype Progress = Progress(tasks: seq<Task>, nextId: Id, tally: Tally)

  /** One turn of the loop. */
  function Step(st: Progress, it: ImportItem, merge: bool, now: int): Progress
  {
    if !HasTitle(it) then
      st.(tally := st.tally.(errors := st.tally.errors + 1))
    else if merge && HasEntry(st.tasks, it) then
      st.(tally := st.tally.(skipped := st.tally.skipped + 1))
    else if Acceptable(Normalize(it)) then
      Progress(st.tasks + [Record(Normalize(it), st.nextId, now)], st.nextId + 1,
               st.tally.(imported := st.tally.imported + 1))
    else
      st.(tally := st.tally.(errors := st.tally.errors + 1))
  }

  /** The loop over `items` from state `st`. */
  function Run(st: Progress, items: seq<ImportItem>, merge: bool, now: int): Progress
    decreases |items|
  {
    if items == [] then st
    else Step(Run(st, items[..|items| - 1], merge, now), items[|items| - 1], merge, now)
  }

  /** The loop over one more item is one more step. */
  lemma RunOneMore(st: Progress, items: seq<ImportItem>, i: nat, merge: bool, now: int)
    requires i < |items|
    ensures Run(st, items[..i + 1], merge, now) == Step(Run(st, items[..i], merge, now), items[i], merge, now)
  {
    assert items[..i + 1][..i] == items[..i];
  }

  function Total(c: Tally): nat {
    c.imported + c.skipped + c.errors
  }

  function Message(c: Tally): string {
    "Import completed: " + NatToString(c.imported) + " imported, " + NatToString(c.skipped) +
    " skipped, " + NatToString(c.errors) + " errors"
  }

  /** The state the import loop starts from: `deleteMany({})` runs first in replace mode. */
  function Start(ts: seq<Task>, nextId: Id, mode: Scalar): Progress {
    Progress(if IsReplace(mode) then [] else ts, nextId, Tally(0, 0, 0))
  }

  /** `POST`: rejects a non-array before touching the store; otherwise empties the store in
      replace mode and then runs the item loop. */
  method Import(store: TaskStore, body: ImportBody, now: int) returns (r: ImportResponse)
    requires store.Valid()
    modifies store
    ensures store.Valid()
    ensures body.tasks.None? ==>
      r == NotAnArray(TasksMustBeArray) && store.tasks == old(store.tasks) && store.nextId == old(store.nextId)
    ensures body.tasks.Some? ==>
      var fin := Run(Start(old(store.tasks), old(store.nextId), body.mode), body.tasks.value, IsMerge(body.mode), now);
      store.tasks == fin.tasks && store.nextId == fin.nextId && r == Completed(Message(fin.tally), fin.tally)
  {
    if body.tasks.None? {
      return NotAnArray(TasksMustBeArray);
    }
    var items := body.tasks.value;
    var merge := IsMerge(body.mode);
    ghost var start := Start(store.tasks, store.nextId, body.mode);
    if IsReplace(body.mode) {
      var _ := store.DeleteAll();
    }
    var imported, skipped, errors := 0, 0, 0;
    for i := 0 to |items|
      invariant store.Valid()
      invariant Run(start, items[..i], merge, now) == Progress(store.tasks, store.nextId, Tally(imported, skipped, errors))
    {
      var it := items[i];
      RunOneMore(start, items, i, merge, now);
      if !HasTitle(it) {
        errors := errors + 1;
      } else if merge && HasEntry(store.tasks, it) {
        skipped := skipped + 1;
      } else {
        var created := store.Create(Normalize(it), now);
        if created.Some? {
          imported := imported + 1;
        } else {
          errors := errors + 1;
        }
      }
    }
    assert items[..|items|] == items;
    var tally := Tally(imported, skipped, errors);
    r := Completed(Message(tally), tally);
  }

  /** One turn of the loop raises exactly one counter. An import appends the item's record
      under the next identifier; a skip or an error leaves the store as it was, and nothing
      is skipped outside merge mode. */
  lemma StepRaisesOneCounter(st: Progress, it: ImportItem, merge: bool, now: int)
    ensures var next := Step(st, it, merge, now);
      Total(next.tally) == Total(st.tally) + 1 &&
      (next.tally.imported == st.tally.imported + 1 ==>
        HasTitle(it) && Acceptable(Normalize(it)) &&
        next.tasks == st.tasks + [Record(Normalize(it), st.nextId, now)] && next.nextId == st.nextId + 1) &&
      (next.tally.imported != st.tally.imported + 1 ==>
        next.tally.imported == st.tally.imported && next.tasks == st.tasks && next.nextId == st.nextId) &&
      (!merge ==> next.tally.skipped == st.tally.skipped) &&
      (HasTitle(it) && Acceptable(Normalize(it)) && !(merge && HasEntry(st.tasks, it)) ==>
        next.tally.imported == st.tally.imported + 1)
  {
  }

  /** Every item raises exactly one counter, so the counters account for every item. */
  lemma {:induction false} TallyAccountsForEveryItem(st: Progress, items: seq<ImportItem>, merge: bool, now: int)
    ensures Total(Run(st, items, merge, now).tally) == Total(st.tally) + |items|
    ensures Run(st, items, merge, now).tally.imported >= st.tally.imported
    decreases |items|
  {
    if items != [] {
      TallyAccountsForEveryItem(st, items[..|items| - 1], merge, now);
    }
  }

  /** Outside merge mode nothing is skipped. */
  lemma {:induction false} NoSkipsOutsideMerge(st: Progress, items: seq<ImportItem>, now: int)
    ensures Run(st, items, false, now).tally.skipped == st.tally.skipped
    decreases |items|
  {
    if items != [] {
      NoSkipsOutsideMerge(st, items[..|items| - 1], now);
    }
  }

  /** The loop only appends: what the store held before stays in place, one new record per
      imported item, under consecutive fresh identifiers. */
  lemma {:induction false} RunOnlyAppends(st: Progress, items: seq<ImportItem>, merge: bool, now: int)
    ensures var fin := Run(st, items, merge, now);
      |st.tasks| <= |fin.tasks| && fin.tasks[..|st.tasks|] == st.tasks &&
      |fin.tasks| - |st.tasks| == fin.tally.imported - st.tally.imported &&
      fin.nextId == st.nextId + (fin.tally.imported - st.tally.imported)
    decreases |items|
  {
    if items != [] {
      RunOnlyAppends(st, items[..|items| - 1], merge, now);
      TallyAccountsForEveryItem(st, items[..|items| - 1], merge, now);
      var mid := Run(st, items[..|items| - 1], merge, now);
      var fin := Run(st, items, merge, now);
      if |fin.tasks| > |mid.tasks| {
        assert fin.tasks[..|st.tasks|] == mid.tasks[..|st.tasks|];
      }
    }
  }

  /** Every appended record is the normalised form of one of the items: trimmed texts,
      `Boolean(completed)`, and a due date only for a truthy input date. */
  lemma {:induction false} AppendedRecordsAreNormalized(st: Progress, items: seq<ImportItem>, merge: bool, now: int)
    ensures var fin := Run(st, items, merge, now);
      forall k :: |st.tasks| <= k < |fin.tasks| ==>
        exists j :: 0 <= j < |items| && HasTitle(items[j]) && Acceptable(Normalize(items[j])) &&
          fin.tasks[k] == Record(Normalize(items[j]), fin.tasks[k].id, now)
    decreases |items|
  {
    if items != [] {
      var init := items[..|items| - 1];
      AppendedRecordsAreNormalized(st, init, merge, now);
      RunOnlyAppends(st, init, merge, now);
      var mid := Run(st, init, merge, now);
      var fin := Run(st, items, merge, now);
      forall k | |st.tasks| <= k < |fin.tasks|
        ensures exists j :: (0 <= j < |items| && HasTitle(items[j]) && Acceptable(Normalize(items[j])) &&
          fin.tasks[k] == Record(Normalize(items[j]), fin.tasks[k].id, now))
      {
        if k < |mid.tasks| {
          assert fin.tasks[k] == mid.tasks[k];
          var j :| 0 <= j < |init| && HasTitle(init[j]) && Acceptable(Normalize(init[j])) &&
            mid.tasks[k] == Record(Normalize(init[j]), mid.tasks[k].id, now);
          assert init[j] == items[j];
        } else {
          assert k == |mid.tasks|;
          var j := |items| - 1;
          assert fin.tasks[k] == Record(Normalize(items[j]), mid.nextId, now);
        }
      }
    }
  }

  /** An item with a falsy title is an error and inserts nothing. */
  lemma ItemWithoutTitleIsError(st: Progress, it: ImportItem, merge: bool, now: int)
    requires !HasTitle(it)
    ensures Step(st, it, merge, now) == st.(tally := st.tally.(errors := st.tally.errors + 1))
  {
  }

  /** In merge mode a duplicate is skipped and inserts nothing. */
  lemma DuplicateIsSkipped(st: Progress, it: ImportItem, now: int)
    requires HasTitle(it) && HasEntry(st.tasks, it)
    ensures Step(st, it, true, now) == st.(tally := st.tally.(skipped := st.tally.skipped + 1))
  {
  }

  /** An item whose texts are already trimmed. */
  predicate Clean(it: ImportItem) {
    Trim(it.title.GetOr("")) == it.title.GetOr("") &&
    Trim(it.description.GetOr("")) == it.description.GetOr("") &&
    Trim(it.category.GetOr("")) == it.category.GetOr("")
  }

  /** A step keeps every stored task where it was. */
  lemma StepKeepsTasks(st: Progress, it: ImportItem, merge: bool, now: int)
    ensures var next := Step(st, it, merge, now);
      |st.tasks| <= |next.tasks| && forall k :: 0 <= k < |st.tasks| ==> next.tasks[k] == st.tasks[k]
  {
  }

  /** A duplicate found before a step is still found after it. */
  lemma StepKeepsEntry(st: Progress, it: ImportItem, merge: bool, now: int, x: ImportItem)
    requires HasEntry(st.tasks, x)
    ensures HasEntry(Step(st, it, merge, now).tasks, x)
  {
    var next := Step(st, it, merge, now);
    StepKeepsTasks(st, it, merge, now);
    var k :| 0 <= k < |st.tasks| && SameEntry(st.tasks[k], x);
    assert next.tasks[k] == st.tasks[k];
  }

  /** After a merge step on a clean item, the item is refused or has a duplicate. */
  lemma StepCoversItem(st: Progress, it: ImportItem, now: int)
    requires Clean(it)
    ensures Rejected(it) || HasEntry(Step(st, it, true, now).tasks, it)
  {
    var next := Step(st, it, true, now);
    if HasTitle(it) && HasEntry(st.tasks, it) {
      assert next.tasks == st.tasks;
    } else if !Rejected(it) {
      assert next.tasks[|st.tasks|] == Record(Normalize(it), st.nextId, now);
      assert SameEntry(next.tasks[|st.tasks|], it);
    }
  }

  /** After a merge import of clean items, each item is either one the store refuses or has
      a duplicate in the store. */
  lemma {:induction false} MergeCoversItems(st: Progress, items: seq<ImportItem>, now: int)
    requires forall j :: 0 <= j < |items| ==> Clean(items[j])
    ensures var fin := Run(st, items, true, now);
      forall j :: 0 <= j < |items| ==> Rejected(items[j]) || HasEntry(fin.tasks, items[j])
    decreases |items|
  {
    if items != [] {
      var init := items[..|items| - 1];
      var last := items[|items| - 1];
      assert forall j :: 0 <= j < |init| ==> init[j] == items[j];
      MergeCoversItems(st, init, now);
      var mid := Run(st, init, true, now);
      var fin := Run(st, items, true, now);
      assert fin == Step(mid, last, true, now);
      forall j | 0 <= j < |items| ensures Rejected(items[j]) || HasEntry(fin.tasks, items[j]) {
        if j < |init| {
          if HasEntry(mid.tasks, items[j]) {
            StepKeepsEntry(mid, last, true, now, items[j]);
          }
        } else {
          StepCoversItem(mid, last, now);
        }
      }
    }
  }

  /** A merge import in which every item is refused or already present inserts nothing. */
  lemma {:induction false} MergeOfCoveredItemsImportsNothing(st: Progress, items: seq<ImportItem>, now: int)
    requires forall j :: 0 <= j < |items| ==> Rejected(items[j]) || HasEntry(st.tasks, items[j])
    ensures Run(st, items, true, now).tally.imported == st.tally.imported
    decreases |items|
  {
    if items != [] {
      var init := items[..|items| - 1];
      assert forall j :: 0 <= j < |init| ==> init[j] == items[j];
      MergeOfCoveredItemsImportsNothing(st, init, now);
      RunOnlyAppends(st, init, true, now);
      var mid := Run(st, init, true, now);
      var it := items[|items| - 1];
      if HasEntry(st.tasks, it) {
        var k :| 0 <= k < |st.tasks| && SameEntry(st.tasks[k], it);
        assert mid.tasks[k] == st.tasks[k];
        assert HasEntry(mid.tasks, it);
      }
    }
  }

  /** Importing the same already-trimmed list twice in merge mode imports nothing the
      second time. */
  lemma MergeImportTwiceImportsNothing(ts: seq<Task>, nextId: Id, items: seq<ImportItem>, now: int, later: int)
    requires forall j :: 0 <= j < |items| ==> Clean(items[j])
    ensures var first := Run(Progress(ts, nextId, Tally(0, 0, 0)), items, true, now);
      Run(Progress(first.tasks, first.nextId, Tally(0, 0, 0)), items, true, later).tally.imported == 0
  {
    var first := Run(Progress(ts, nextId, Tally(0, 0, 0)), items, true, now);
    MergeCoversItems(Progress(ts, nextId, Tally(0, 0, 0)), items, now);
    MergeOfCoveredItemsImportsNothing(Progress(first.tasks, first.nextId, Tally(0, 0, 0)), items, later);
  }

  /** A non-merge import in which the store accepts every item appends every item's record,
      in order and under consecutive identifiers. */
  lemma {:induction false} ImportOfAcceptedItems(st: Progress, items: seq<ImportItem>, now: int)
    requires forall j :: 0 <= j < |items| ==> !Rejected(items[j])
    ensures var fin := Run(st, items, false, now);
      |fin.tasks| == |st.tasks| + |items| && fin.tasks[..|st.tasks|] == st.tasks &&
      forall j :: 0 <= j < |items| ==> fin.tasks[|st.tasks| + j] == Record(Normalize(items[j]), st.nextId + j, now)
    decreases |items|
  {
    if items != [] {
      var init := items[..|items| - 1];
      assert forall j :: 0 <= j < |init| ==> init[j] == items[j];
      ImportOfAcceptedItems(st, init, now);
      RunOnlyAppends(st, init, false, now);
      TallyAccountsForEveryItem(st, init, false, now);
      var mid := Run(st, init, false, now);
      assert mid.nextId == st.nextId + |init| by {
      }
    }
  }

  /** The import item that an exported record becomes when the download is read back: the
      ISO due date string is truthy and parses to the same instant. */
  function ItemOf(rec: ExportRecord): ImportItem {
    ImportItem(Some(rec.title), Some(rec.description), Some(rec.category), Bool(rec.completed),
               if rec.dueDate.Some? then Parsed(rec.dueDate.value) else Falsy)
  }

  function ItemsOf(recs: seq<ExportRecord>): (r: seq<ImportItem>)
    ensures |r| == |recs|
    ensures forall k :: 0 <= k < |recs| ==> r[k] == ItemOf(recs[k])
  {
    seq(|recs|, k requires 0 <= k < |recs| => ItemOf(recs[k]))
  }

  /** Texts as the routes store them: the title non-empty and every text trimmed. */
  predicate Tidy(t: Task) {
    t.title != "" && Trim(t.title) == t.title &&
    Trim(t.description.GetOr("")) == t.description.GetOr("") &&
    Trim(t.category.GetOr("")) == t.category.GetOr("")
  }

  predicate TidyRecord(rec: ExportRecord) {
    rec.title != "" && Trim(rec.title) == rec.title &&
    Trim(rec.description) == rec.description && Trim(rec.category) == rec.category
  }

  /** The record stored for the item read back from an exported record has the exported
      content. */
  predicate Restores(t: Task, rec: ExportRecord) {
    t.title == rec.title && t.description == Some(rec.description) && t.category == Some(rec.category) &&
    t.completed == rec.completed && t.dueDate == rec.dueDate
  }

  /** A tidy exported record is accepted back, and the stored record restores it. */
  lemma ReadBackRecord(rec: ExportRecord, id: Id, now: int)
    requires TidyRecord(rec)
    ensures !Rejected(ItemOf(rec)) && Restores(Record(Normalize(ItemOf(rec)), id, now), rec)
  {
  }

  /** The export of tidy tasks holds tidy records only. */
  lemma ExportIsTidy(ts: seq<Task>, now: int)
    requires forall k :: 0 <= k < |ts| ==> Tidy(ts[k])
    ensures forall k :: 0 <= k < |Export(ts, now).tasks| ==> TidyRecord(Export(ts, now).tasks[k])
  {
    var recs := Export(ts, now).tasks;
    ExportHoldsOnlyStoredTasks(ts, now);
    forall k | 0 <= k < |recs| ensures TidyRecord(recs[k]) {
      var j :| 0 <= j < |ts| && recs[k] == ExportRecordOf(ts[j]);
      assert Tidy(ts[j]);
    }
  }

  /** The loop ended with every record imported, nothing skipped and no error, and the store
      holds exactly one record per exported record, restoring it, in order. */
  predicate RestoresAll(fin: Progress, recs: seq<ExportRecord>) {
    fin.tally == Tally(|recs|, 0, 0) && |fin.tasks| == |recs| &&
    forall k :: 0 <= k < |recs| ==> Restores(fin.tasks[k], recs[k])
  }

  /** Reading back tidy records in replace mode restores each of them, in order. */
  lemma ReplaceImportRestores(ts: seq<Task>, recs: seq<ExportRecord>, nextId: Id, later: int)
    requires forall k :: 0 <= k < |recs| ==> TidyRecord(recs[k])
    ensures RestoresAll(Run(Start(ts, nextId, Str("replace")), ItemsOf(recs), false, later), recs)
  {
    var items := ItemsOf(recs);
    var st := Start(ts, nextId, Str("replace"));
    assert st == Progress([], nextId, Tally(0, 0, 0));
    forall j | 0 <= j < |items| ensures !Rejected(items[j]) {
      ReadBackRecord(recs[j], nextId + j, later);
    }
    ImportOfAcceptedItems(st, items, later);
    TallyAccountsForEveryItem(st, items, false, later);
    NoSkipsOutsideMerge(st, items, later);
    RunOnlyAppends(st, items, false, later);
    var fin := Run(st, items, false, later);
    assert fin.tally.imported == |recs| && fin.tally.skipped == 0;
    assert fin.tally.errors == 0;
    forall k | 0 <= k < |recs| ensures Restores(fin.tasks[k], recs[k]) {
      ReadBackRecord(recs[k], nextId + k, later);
      assert fin.tasks[|st.tasks| + k] == Record(Normalize(items[k]), nextId + k, later);
    }
  }

  /** Export followed by a replace import restores every exported record: same title,
      description, category, completion and due date, in the export's order, and every
      item counts as imported. */
  lemma ExportThenReplaceImportRestores(ts: seq<Task>, nextId: Id, now: int, later: int)
    requires forall k :: 0 <= k < |ts| ==> Tidy(ts[k])
    ensures var e := Export(ts, now);
      var fin := Run(Start(ts, nextId, Str("replace")), ItemsOf(e.tasks), false, later);
      fin.tally == Tally(|ts|, 0, 0) && |fin.tasks| == |e.tasks| &&
      forall k :: 0 <= k < |e.tasks| ==> Restores(fin.tasks[k], e.tasks[k])
  {
    ExportIsTidy(ts, now);
    ReplaceImportRestores(ts, Export(ts, now).tasks, nextId, later);
  }
}
