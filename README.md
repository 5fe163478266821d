# taskify in Dafny

A model of the decision logic of taskify, a Next.js task manager backed by a MongoDB
collection of `Todo` documents. The model covers:

- the server routes:
  - listing and creating tasks;
  - search with filters and pagination;
  - statistics;
  - bulk updates;
  - export and import;
  - AI suggestions.
- the pure helpers of the client components:
  - the task-list order;
  - the dashboard counters;
  - the overdue badge;
  - the bulk-selection state;
  - the filter bar.

How the model represents the system:

- **The store.** The document store is an in-memory `seq<Task>` plus the next identifier to
  hand out. It is held in the class `Store.TaskStore`, whose methods are the store
  primitives the routes call: `create`, `updateMany`, `deleteMany` and `deleteAll`.
- **Route forms.** Read-only routes are functions of one snapshot of the collection.
  Mutating routes are methods that take the store and say exactly how it changes.
- **Time.** Instants are integers, in milliseconds. "Now" is always a parameter.
- **Strings.** Strings are `seq<char>`. `trim`, `toLowerCase`, `includes`, `split` and the
  `\d{4}-\d{2}-\d{2}` match are written out in `Text` and `Dates`.

Module by module:

- **Search.** The route builds a store filter one key at a time. That filter selects exactly
  the tasks the request describes. The route then sorts on one field, ascending only for
  `sortOrder=asc`, and returns the page `[skip, skip+limit)` with `totalPages = ceil(count /
  limit)`.
- **Stats.** The counters are consistent with each other: pending is total minus completed,
  and the rate is a rounded percentage. Overdue and upcoming are disjoint. The
  per-category groups add up to the total.
- **Bulk.** Bad input is refused before the store is touched. `markCompleted`/`markPending`
  update exactly the listed tasks, and `delete` removes exactly them. The reported count
  never exceeds the number of listed tasks that exist.
- **ImportExport.** Export returns every task, newest first. Import is a loop over the
  items in which each item raises exactly one of imported, skipped and errors. The loop
  is `ImportExport.Import`, proved against the fold `ImportExport.Run`. Round-trip
  properties:
  - merge mode skips duplicates;
  - a second merge import of the same list imports nothing;
  - an export read back in replace mode restores every exported record.
- **Suggest.** The reply is scanned line by line, the last matching line winning. The
  category is never empty. The returned date always passes `isValidDate`, because a
  missing or invalid date falls back to the date exactly seven calendar days later.
- **Todos.** `POST` validates the title and normalises the draft. `GET` lists newest
  first (`Store.NewestFirst`).
- **Client helpers:**
  - `TodoList`: the comparator is shown equal to a lexicographic key, and the sorted copy
    is proved to be a permutation in that order, with equal tasks in their original order.
  - `Dashboard`: counters agreeing with the statistics route, and distinct category
    labels.
  - `TodoItem`: the day-granular overdue badge.
  - `BulkActions`: the selection as a class over an insertion-ordered sequence without
    duplicates.
  - `FilterBar`: filter merge and reset.

The "Overdue Tasks" card of the dashboard displays `total - completed`, which is the
pending count. Its title says otherwise, but the model records what the code computes:
`Dashboard.OverdueCardIsPending` states the figure, and `Dashboard.OverdueCardOvercounts`
gives a single undated pending task for which the card shows 1 and the true overdue count
is 0.

## Model

| member | source | states |
|---|---|---|
| Text.TrimSpec | src/app/api/todos/route.ts:22 | `trim` keeps the part of the string between leading and trailing white space, and neither end of the result is white space |
| Text.TrimIdempotent | src/app/api/todos/export/route.ts:80-82 | trimming an already trimmed text changes nothing |
| Text.BlankIff | src/app/api/todos/route.ts:22 | `s.trim().length === 0` holds exactly when every character is white space |
| Text.ContainsIff | src/app/api/ai-suggest/route.ts:45 | `includes(p)` holds exactly when `p` occurs at some offset |
| Text.Split | src/app/api/ai-suggest/route.ts:40 | `split(sep)` yields at least one part, no part holds the separator, and joining the parts gives the input back |
| Text.NatToString | src/app/api/todos/export/route.ts:96 | a count is written as decimal digits with no leading zero, denoting the count |
| Dates.DayOf | src/components/TodoItem.tsx:85-86 | midnight truncation: the day number is the one whose 24 hours contain the instant |
| Dates.PlusDays | src/app/api/ai-suggest/route.ts:58-59 | `setDate(getDate() + n)` gives a real date, strictly later for `n > 0` and `d` itself for `n = 0`, in the same or the next year |
| Dates.NextDay | src/app/api/ai-suggest/route.ts:58-59 | the calendar day after a real date is a real date, strictly later |
| Dates.PlusDaysCountsDays | src/app/api/ai-suggest/route.ts:58-59 | the month-overflow arithmetic lands exactly `n` days on: it equals `n` single steps to the next calendar day |
| Dates.FormatIsoRoundTrip | src/app/api/ai-suggest/route.ts:60-75 | a formatted real date is `YYYY-MM-DD`-shaped, parses back to itself and passes `isValidDate` |
| Dates.IsValidDateIffFormatted | src/app/api/ai-suggest/route.ts:72-75 | `isValidDate` accepts exactly the `YYYY-MM-DD` forms of real dates with four-digit years |
| Dates.DateMatch | src/app/api/ai-suggest/route.ts:49-51 | the regex match is a date-shaped substring starting at an offset before which no date-shaped substring starts, and there is no match exactly when no offset holds one |
| Seqs.CountWherePermutation | src/app/api/todos/export/route.ts:14-15 | counting completed tasks does not depend on the order of the tasks |
| Seqs.WhereSubsequence | src/app/api/ai-suggest/route.ts:40 | `filter` keeps the elements that satisfy the predicate, each at a position of the input, in increasing positions, leaving none out |
| Sorting.SortByKey | src/app/api/todos/search/route.ts:56-60 | a sort on one key returns a permutation of its input |
| Sorting.SortedBySortByKey | src/app/api/todos/search/route.ts:56-60 | the sorted sequence is ordered by the key, ascending or descending |
| Sorting.SortByKeyStable | src/components/TodoList.tsx:43 | the sort is stable: the elements with any one key appear in the output in their input order |
| Store.Record | src/models/Todo.ts:3-24 | a created document carries the draft's fields, its identifier and both timestamps set to now |
| Store.ModifiedCount | src/app/api/todos/bulk/route.ts:21-32 | `modifiedCount` never exceeds the number of matched documents, and equals it when no document was already stamped at the update's instant |
| Store.SetCompleted | src/app/api/todos/bulk/route.ts:21-31 | `updateMany` sets `completed` and `updatedAt` on exactly the matched tasks and keeps every other task |
| Store.NewestFirst | src/app/api/todos/route.ts:8 | `find({}).sort({createdAt: -1})` returns every stored task, each as often as stored, creation instants non-increasing |
| Store.NewestFirstSameTasks | src/app/api/todos/export/route.ts:9 | the sorted listing neither loses nor invents a task |
| Store.WhereWellFormed | src/models/Todo.ts:16-24 | removing tasks keeps identifiers unique and below the next one |
| Store.TaskStore.Create | src/models/Todo.ts:17 | an accepted draft is appended under a fresh identifier; a rejected one (empty title, invalid date) leaves the store as it was |
| Store.TaskStore.UpdateMany | src/app/api/todos/bulk/route.ts:21-25 | the store becomes `SetCompleted` of the old tasks, and the returned count is the number of documents changed |
| Store.TaskStore.DeleteMany | src/app/api/todos/bulk/route.ts:35-36 | the survivors are the tasks whose identifier is not listed, and the count is the number removed |
| Store.TaskStore.DeleteAll | src/app/api/todos/export/route.ts:51-54 | the collection is emptied and the identifier counter kept |
| Search.BuildFilter | src/app/api/todos/search/route.ts:19-49 | the filter built key by key selects exactly the tasks the request asks for: `q` in title, description or category (case-insensitive), AND the category parameter in the category, AND the status (`completed`, `pending`, or `overdue` = pending and due before now; other values add nothing) |
| Search.Paginate | src/app/api/todos/search/route.ts:52-62 | the page is the slice starting at `(page-1)*limit`, at most `limit` long, and exactly as long as what remains up to `limit` |
| Search.TotalPages | src/app/api/todos/search/route.ts:66 | `ceil(count/limit)`: the least number of pages of `limit` that hold `count` |
| Search.FieldKey | src/app/api/todos/search/route.ts:55-60 | a field the documents do not have gives every document the same key |
| Search.FieldKeyOrder | src/app/api/todos/search/route.ts:55-60 | the ascending store order on each field: instants and identifiers by value, `false` before `true`, texts in code-point order, a missing value before every present one, and every document equal on an unknown field |
| Search.TextKeyOrder | src/app/api/todos/search/route.ts:55-60 | text keys compare as their strings do in code-point order: a prefix first, otherwise the first differing character decides |
| Search.Search | src/app/api/todos/search/route.ts:9-77 | the page is the sorted page of the selected tasks (descending unless `sortOrder=asc`, `createdAt` by default), each drawn from the store and selected, ordered by the sort key; the total is the number selected and `hasNext`/`hasPrev` are `page < totalPages` and `page > 1` |
| Search.PageHolds | src/app/api/todos/search/route.ts:52-62 | the pages partition the sorted matches: element `k` sits at position `k % limit` of page `k / limit + 1` |
| Search.HasNextIffNextPageNonEmpty | src/app/api/todos/search/route.ts:66-74 | `hasNext` holds exactly when the next page is not empty |
| Search.PaginationExample | src/app/api/todos/search/route.ts:66-75 | 25 matches at 10 per page make 3 pages; page 2 has both neighbours, page 3 has no next page |
| Stats.CompletionRate | src/app/api/todos/stats/route.ts:53 | 0 for no tasks; otherwise the percentage rounded half up, within `[0,100]` |
| Stats.Compute | src/app/api/todos/stats/route.ts:9-53 | total is the number of tasks; completed counts the completed ones and is at most total; pending is total minus completed and counts the incomplete ones; overdue and upcoming are the route's counts; the rate is the rounded percentage, at most 100 and 0 for no tasks; each category group counts the tasks of its category (at least one) and exactly the completed ones among them (so at most that many), and pending = total - completed |
| Stats.Groups | src/app/api/todos/stats/route.ts:14-30 | each category group counts the tasks of its category, has at least one, counts exactly the completed ones among them (so at most that many), and pending = total - completed |
| Stats.OverdueUpcomingDisjoint | src/app/api/todos/stats/route.ts:33-45 | no task is both overdue and upcoming, neither count holds a completed task, and together they never exceed pending |
| Stats.GroupKeysDistinctAndComplete | src/app/api/todos/stats/route.ts:16-24 | the groups are keyed by the raw category values, each once, covering every task |
| Stats.GroupTotalsSumToTotal | src/app/api/todos/stats/route.ts:14-30 | the group totals add up to the total number of tasks |
| Bulk.MatchedCountIsPresentIds | src/app/api/todos/bulk/route.ts:22-35 | with unique identifiers, `{_id: {$in: ids}}` matches as many documents as listed identifiers that exist |
| Bulk.DeleteRemovesMatched | src/app/api/todos/bulk/route.ts:35-36 | deletion removes exactly the matched tasks and keeps every other |
| Bulk.EmptyIdsAffectNothing | src/app/api/todos/bulk/route.ts:21-36 | an empty identifier list changes no task and counts nothing |
| Bulk.Perform | src/app/api/todos/bulk/route.ts:8-45 | 400 for a falsy action or a non-array `todoIds`, or an unknown action, with the store unchanged; otherwise the named update or deletion is applied to exactly the listed tasks and its count reported, never more than the listed tasks that exist |
| ImportExport.Export | src/app/api/todos/export/route.ts:9-25 | the envelope counts every task and the completed ones, and its records are those of the stored tasks, each exactly as often as stored (equal multisets), newest first |
| ImportExport.ExportHoldsOnlyStoredTasks | src/app/api/todos/export/route.ts:16-24 | every exported record is the record of a stored task |
| ImportExport.ExportHoldsEveryTask | src/app/api/todos/export/route.ts:9-24 | every stored task is exported |
| ImportExport.Normalize | src/app/api/todos/export/route.ts:79-85 | the item's title, description and category trimmed (absent ones empty), `Boolean(completed)`, and its due date |
| ImportExport.Import | src/app/api/todos/export/route.ts:43-97 | a non-array is refused with the store unchanged; otherwise the store after replace-mode purge and the per-item loop is the fold of the loop's step over the items, and the message reports the three counters |
| ImportExport.StepRaisesOneCounter | src/app/api/todos/export/route.ts:56-93 | one turn of the loop raises exactly one counter; an import appends the item's record under the next identifier, and a skip or an error leaves the store as it was; nothing is skipped outside merge mode; a titled, acceptable item with no stored duplicate in merge mode is always imported |
| ImportExport.TallyAccountsForEveryItem | src/app/api/todos/export/route.ts:56-93 | imported + skipped + errors grows by exactly the number of items |
| ImportExport.NoSkipsOutsideMerge | src/app/api/todos/export/route.ts:65-76 | outside merge mode nothing is skipped |
| ImportExport.RunOnlyAppends | src/app/api/todos/export/route.ts:56-93 | the loop keeps the stored tasks in place and appends one record per imported item, under fresh identifiers |
| ImportExport.AppendedRecordsAreNormalized | src/app/api/todos/export/route.ts:79-87 | every appended record is the normalised form of an item with a title that the store accepts |
| ImportExport.ItemWithoutTitleIsError | src/app/api/todos/export/route.ts:59-62 | an item with a falsy title counts an error and inserts nothing |
| ImportExport.DuplicateIsSkipped | src/app/api/todos/export/route.ts:65-75 | in merge mode an item with a stored duplicate (same title, description or `''`, category or `''`) is skipped and inserts nothing |
| ImportExport.MergeCoversItems | src/app/api/todos/export/route.ts:65-88 | after a merge import of trimmed items, each item is either refused by the store or has a stored duplicate |
| ImportExport.MergeImportTwiceImportsNothing | src/app/api/todos/export/route.ts:65-88 | importing the same trimmed list twice in merge mode imports nothing the second time |
| ImportExport.ImportOfAcceptedItems | src/app/api/todos/export/route.ts:79-88 | a non-merge import of items the store accepts appends each item's record, in order, under consecutive identifiers |
| ImportExport.ReadBackRecord | src/app/api/todos/export/route.ts:16-85 | a tidy exported record read back is accepted and stored with the same title, description, category, completion and due date |
| ImportExport.ExportThenReplaceImportRestores | src/app/api/todos/export/route.ts:9-93 | exporting tidy tasks and importing the download in replace mode stores exactly one record per exported record, restoring each, in the exported order |
| Suggest.Lines | src/app/api/ai-suggest/route.ts:40 | every scanned line is a non-blank line of the reply, and every non-blank line of the reply is scanned |
| Suggest.LinesInReplyOrder | src/app/api/ai-suggest/route.ts:40 | the scanned lines are the reply's lines at strictly increasing positions, covering every non-blank one |
| Suggest.CategoryField | src/app/api/ai-suggest/route.ts:46 | the second part of the colon split, trimmed, when that is non-blank, and `Other` when there is no second part or it is blank; never empty |
| Suggest.CategoryFieldBetweenColons | src/app/api/ai-suggest/route.ts:46 | a line without a colon gives `Other`; otherwise the field is the text between the first colon and the next colon (or the end), trimmed, or `Other` when that is blank |
| Suggest.ParseReply | src/app/api/ai-suggest/route.ts:40-54 | the loop's category and date are those of the scans over the non-blank lines, starting from `Other` and `''` |
| Suggest.LastCategoryLineWins | src/app/api/ai-suggest/route.ts:44-47 | the last line mentioning `category:` decides the category |
| Suggest.NoCategoryLineKeepsDefault | src/app/api/ai-suggest/route.ts:41-47 | without such a line the category stays `Other` |
| Suggest.LastDueDateLineWins | src/app/api/ai-suggest/route.ts:48-53 | the last `due date:` line holding a date decides the date |
| Suggest.FoundDueDateIsDateShaped | src/app/api/ai-suggest/route.ts:49-51 | a date found by the scan is `YYYY-MM-DD`-shaped |
| Suggest.ReplyExample | src/app/api/ai-suggest/route.ts:29-54 | the reply `Category: Work\nDue Date: 2025-03-01` gives `Work` and `2025-03-01` |
| Suggest.WeekLater | src/app/api/ai-suggest/route.ts:57-61 | the fallback date passes `isValidDate` and reads back as exactly seven calendar days after today |
| Suggest.HandleSuggest | src/app/api/ai-suggest/route.ts:8-69 | 400 for missing or blank text; 500 when the key is not configured or the model call or `trim` fails; otherwise the parsed category and the parsed date when valid, else the date a week later; every suggestion has a non-empty category and a valid date |
| Todos.Check | src/app/api/todos/route.ts:22-33 | the title is refused exactly when it is falsy or blank; the handler throws exactly when the title is truthy but not a string, or when it is a non-blank string and the description or category is neither absent, `null` nor a string; otherwise the draft has the trimmed non-empty title, trimmed description and category (absent or `null` ones empty), `completed` false and the given due date |
| Todos.Create | src/app/api/todos/route.ts:16-40 | 400 with the store unchanged for a missing title; 500 with the store unchanged when creation fails; otherwise 201 with the record appended under a fresh identifier |
| Todos.CreatedRecordIsTidy | src/app/api/todos/route.ts:27-35 | a record created by the route has a non-empty title and trimmed texts, so its export reads back unchanged |
| TodoList.Compare | src/components/TodoList.tsx:43-58 | the comparator's sign: an incomplete task before a completed one; within one status a dated task before an undated one, dated tasks by due instant and undated ones newest first, zero exactly for equal instants |
| TodoList.CompareMatchesKey | src/components/TodoList.tsx:43-58 | the comparator is non-positive exactly when the task's key is lexicographically no larger, and zero exactly when the keys are equal |
| TodoList.SortTodos | src/components/TodoList.tsx:43 | the sorted copy is a permutation of the tasks, ordered by the key |
| TodoList.SortTodosStable | src/components/TodoList.tsx:43 | `Array.prototype.sort` is stable: tasks that compare equal keep their order from the unsorted list |
| TodoList.SortedRespectsCompare | src/components/TodoList.tsx:43-58 | no pair of the sorted list is out of the comparator's order |
| TodoList.IncompleteFirst | src/components/TodoList.tsx:45-47 | every incomplete task precedes every completed one |
| TodoList.DatedBeforeUndated | src/components/TodoList.tsx:53-54 | within one status, a dated task precedes an undated one |
| TodoList.EarliestDueFirst | src/components/TodoList.tsx:50-52 | within one status, dated tasks go earliest due first |
| TodoList.UndatedNewestFirst | src/components/TodoList.tsx:56-57 | within one status, undated tasks go newest first |
| TodoList.EqualDueCompareEqual | src/components/TodoList.tsx:50-52 | two tasks of one status due at the same instant compare equal, whatever their creation instants |
| TodoList.View | src/components/TodoList.tsx:16-91 | the empty message exactly for no tasks; otherwise the sorted list, the completed count (at most the total), and, exactly when something is completed, the percentage `Math.round(completed / total * 100)`: in `[0,100]` and within half a point of the exact ratio |
| Dashboard.Label | src/components/Dashboard.tsx:144 | an absent or empty category is shown as `Uncategorized`, any other as itself |
| Dashboard.Categories | src/components/Dashboard.tsx:143-145 | the category labels without duplicates, each task's label among them and each drawn from a task |
| Dashboard.Summarize | src/components/Dashboard.tsx:16-131 | nothing for no tasks; otherwise total, completed, pending = total - completed, the rate, the upcoming count, the alert cards shown exactly when their figures are positive, and the categories |
| Dashboard.AgreesWithStats | src/components/Dashboard.tsx:16-30 | the dashboard counters equal the statistics route's over the same tasks and instant |
| Dashboard.OverdueCardIsPending | src/components/Dashboard.tsx:97-105 | the "Overdue Tasks" card shows the pending count |
| Dashboard.OverdueCardBoundsOverdue | src/components/Dashboard.tsx:97-105 | when a task is overdue, the card is shown and its figure is at least the true overdue count |
| Dashboard.OverdueCardOvercounts | src/components/Dashboard.tsx:97-105 | for one undated pending task the card shows 1 while no task is overdue |
| TodoItem.IsOverdue | src/components/TodoItem.tsx:81-88 | a task is badged overdue exactly when it is pending and due before the local midnight that starts today |
| TodoItem.UndatedNeverOverdue | src/components/TodoItem.tsx:82 | a task without a due date is never overdue |
| TodoItem.CompletedNeverOverdue | src/components/TodoItem.tsx:87 | a completed task is never overdue |
| TodoItem.DueTodayNotOverdue | src/components/TodoItem.tsx:84-87 | a task due at any time of today's local day is not overdue |
| TodoItem.BadgeImpliesOverdueAt | src/components/TodoItem.tsx:81-88 | a badged task is also overdue by the statistics' instant comparison |
| TodoItem.LongOverdueIsBadged | src/components/TodoItem.tsx:81-88 | a pending task due a full day or more before now is badged |
| TodoItem.ToggleBody | src/components/TodoItem.tsx:26 | the toggle request always asks for the other status |
| BulkActions.Toggled | src/components/BulkActions.tsx:24-32 | toggling removes a selected identifier and appends an unselected one, changes no other identifier, and keeps the selection free of duplicates |
| BulkActions.ToggleTwice | src/components/BulkActions.tsx:24-32 | toggling twice keeps the same identifiers selected, and restores the very sequence when the identifier was not selected |
| BulkActions.SelectAll | src/components/BulkActions.tsx:16-22 | select-all clears when the sizes agree and otherwise selects exactly the identifiers of the listed tasks |
| BulkActions.SelectAllTwiceClears | src/components/BulkActions.tsx:16-22 | with distinct task identifiers, select-all selects one entry per task and a second select-all clears |
| BulkActions.AllSelectedBySizeOnly | src/components/BulkActions.tsx:84 | `allSelected` compares sizes only: a selection of another identifier counts as all of one task |
| BulkActions.ActionName | src/components/BulkActions.tsx:40-59 | each action is sent under its own name |
| BulkActions.Selection.ToggleSelectAll | src/components/BulkActions.tsx:16-22 | the selection becomes `SelectAll` of the old selection |
| BulkActions.Selection.ToggleSelectTodo | src/components/BulkActions.tsx:24-32 | the selection becomes `Toggled` of the old selection |
| BulkActions.Selection.PerformBulkAction | src/components/BulkActions.tsx:34-67 | an empty selection sends nothing and keeps the state; a declined confirmation sends nothing; otherwise the request carries the action and the selection, and only a successful response clears the selection |
| FilterBar.FilterChange | src/components/FilterBar.tsx:37-41 | every key the update carries is overwritten, every other key and the query are kept |
| FilterBar.SearchChange | src/components/FilterBar.tsx:32-35 | only the query changes |
| FilterBar.Clear | src/components/FilterBar.tsx:25-52 | clearing gives the initial state |
| FilterBar.HasActiveFilters | src/components/FilterBar.tsx:54-55 | no filter is active exactly when query, category and status are at their defaults, whatever the sort options |
| FilterBar.MergeSequential | src/components/FilterBar.tsx:37-41 | two updates in a row are one update in which the later key wins |
| FilterBar.MergeIdempotent | src/components/FilterBar.tsx:37-41 | repeating an update changes nothing more, and an empty update changes nothing |
| FilterBar.ClearDeactivates | src/components/FilterBar.tsx:43-55 | after clearing no filter is active |
| FilterBar.SortNeverActivates | src/components/FilterBar.tsx:54-55 | changing only the sort options never changes whether a filter is active |

## Left out

- Search.Search: requires `page ≥ 1` and `limit ≥ 1`. The route does not clamp, and the store's behaviour for a negative skip or a zero limit is not modelled.
- Search.Search: the model breaks ties between equal sort keys by store order. The store guarantees no tie order.
- Search.Search: `parseInt` of `page` and `limit` is not modelled. They arrive as numbers, or absent.
- Search.Matches: `$regex` is read as a literal case-insensitive substring. Regular expression metacharacters are not modelled.
- Text.ToLower: case folding is the ASCII range only. Unicode case mapping is not modelled.
- Bulk.Perform: the affected count of `updateMany` is exact under the model's change-detection rule, which counts a matched task whose `completed` or `updatedAt` changes. The store's actual change detection is assumed to be that rule.
- Bulk.Perform: a malformed ObjectId, which the store rejects with an exception (500), is not modelled. Identifiers are opaque numbers.
- ImportExport.Import: every record created by one import gets the same instant `now`.
- ImportExport.Import: a title, description or category that is not a string (so `trim` throws) is not modelled. These fields are strings or absent.
- Not modelled: a request body that is not valid JSON. `req.json()` then throws, and every route answers 500 from its `catch`.
- ImportExport.Export: instants are integers. `toISOString` and parsing back are taken as exact inverses.
- Suggest.HandleSuggest: the fallback date is computed from the UTC calendar date of now, for years up to 9998. Four-digit ISO years only.
- Suggest.HandleSuggest: the call to the Gemini model is a parameter: its reply, or `None` when it fails. So is whether the API key is configured.
- Dates.IsValidDate: the real calendar is checked. The JavaScript `Date` leniency for days up to 31 in short months is not modelled.
- TodoItem.IsOverdue: the local time zone is a fixed offset. Daylight-saving changes are not modelled.
- Stats.UpcomingCount: "seven days on" is exactly seven times 24 hours. Daylight-saving changes are not modelled. The route reads the clock a second time for the end of the window, after the overdue query has finished; the model uses one instant for both windows, so the few milliseconds between the two readings are not modelled.
- Stats.CompletionRate: integer half-up rounding replaces floating-point `Math.round`.
- BulkActions.Selection.PerformBulkAction: the request is posted to `/api/todos/stats`, which has no `POST` handler. The model keeps the request and the client's reaction; what the bulk operation does is modelled by `Bulk.Perform`.
- Not modelled: database connection, network, `toast`, `window.confirm` and page state. These are I/O and UI effects.
- Not modelled: JSX rendering, locale date formatting and the export download headers.
- Not modelled: the keyboard shortcuts component, the add-task form and the import/export panel. They are UI plumbing around the routes modelled here.
- Not modelled: concurrency between requests. Each route runs against one state of the store.
