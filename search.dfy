/** The search route (`GET /api/todos/search`): a filter built from the optional query
    parameters, a sort on one field, and a page of the sorted matches. */
module Search {
  import opened Wrappers
  import opened Text
  import opened Tasks
  import opened Seqs
  import opened Sorting

  /** The query string. `None` is a parameter that is absent; `page` and `limit` are the
      numbers `parseInt` reads from theirs. */
  datatype SearchParams = SearchParams(
    q: Option<string>,
    category: Option<string>,
    status: Option<string>,
    sortBy: Option<string>,
    sortOrder: Option<string>,
    page: Option<int>,
    limit: Option<int>)

  /** The store filter the route assembles; a `None` field is a key the route did not set. */
  datatype Filter = Filter(
    text: Option<string>,
    category: Option<string>,
    completed: Option<bool>,
    dueBefore: Option<int>)

  datatype Pagination = Pagination(currentPage: int, totalPages: int, totalCount: nat, hasNext: bool, hasPrev: bool)

  datatype SearchResponse = SearchResponse(todos: seq<Task>, pagination: Pagination)

  /** A parameter whose value is a non-empty string (the route's `if (x)`). */
  predicate Given(p: Option<string>) {
    p.Some? && p.value != ""
  }

  function SortField(p: SearchParams): string {
    if Given(p.sortBy) then p.sortBy.value else "createdAt"
  }

  /** Ascending only for `sortOrder=asc`; the default and every other value sort descending. */
  predicate Descending(p: SearchParams) {
    !(Given(p.sortOrder) && p.sortOrder.value == "asc")
  }

  function PageOf(p: SearchParams): int {
    if p.page.Some? then p.page.value else 1
  }

  function LimitOf(p: SearchParams): int {
    if p.limit.Some? then p.limit.value else 20
  }

  /** An optional text field matched case-insensitively by `$regex`: a missing field never
      matches. */
  predicate FieldMatches(field: Option<string>, q: string) {
    field.Some? && ContainsIgnoringCase(field.value, q)
  }

  /** How the store evaluates the filter on one document: every key that is set must hold. */
  predicate Matches(f: Filter, t: Task) {
    (f.text.Some? ==>
      ContainsIgnoringCase(t.title, f.text.value) || FieldMatches(t.description, f.text.value) ||
      FieldMatches(t.category, f.text.value)) &&
    (f.category.Some? ==> FieldMatches(t.category, f.category.value)) &&
    (f.completed.Some? ==> t.completed == f.completed.value) &&
    (f.dueBefore.Some? ==> t.dueDate.Some? && t.dueDate.value < f.dueBefore.value)
  }

  /** What the request asks for, parameter by parameter: the text occurs in the title, the
      description or the category; the category parameter occurs in the category; and the
      status, when it is one of the three known values, holds. */
  predicate Selected(p: SearchParams, now: int, t: Task) {
    (Given(p.q) ==>
      ContainsIgnoringCase(t.title, p.q.value) || FieldMatches(t.description, p.q.value) ||
      FieldMatches(t.category, p.q.value)) &&
    (Given(p.category) ==> FieldMatches(t.category, p.category.value)) &&
    (Given(p.status) && p.status.value == "completed" ==> t.completed) &&
    (Given(p.status) && p.status.value == "pending" ==> !t.completed) &&
    (Given(p.status) && p.status.value == "overdue" ==>
      !t.completed && t.dueDate.Some? && t.dueDate.value < now)
  }

  /** Builds the filter key by key, as the route does. The filter selects exactly the tasks
      the request describes. */
  method BuildFilter(p: SearchParams, now: int) returns (f: Filter)
    ensures forall t :: Matches(f, t) <==> Selected(p, now, t)
    ensures !Given(p.q) && !Given(p.category) && !Given(p.status) ==> f == Filter(None, None, None, None)
  {
    f := Filter(None, None, None, None);
    if Given(p.q) {
      f := f.(text := p.q);
    }
    if Given(p.category) {
      f := f.(category := p.category);
    }
    if Given(p.status) {
      if p.status.value == "completed" {
        f := f.(completed := Some(true));
      } else if p.status.value == "pending" {
        f := f.(completed := Some(false));
      } else if p.status.value == "overdue" {
        f := f.(completed := Some(false), dueBefore := Some(now));
      }
    }
  }

  /** `Todo.find(filter)`: the matching documents in store order. */
  function Find(ts: seq<Task>, f: Filter): seq<Task> {
    Where(ts, (t: Task) => Matches(f, t))
  }

  /** The tasks the request selects, in store order. */
  function Matching(ts: seq<Task>, p: SearchParams, now: int): seq<Task> {
    Where(ts, (t: Task) => Selected(p, now, t))
  }

  /** The code points of a string, in order. */
  function CodePoints(s: string): (r: seq<int>)
    ensures |r| == |s| && forall i :: 0 <= i < |s| ==> r[i] == s[i] as int
  {
    seq(|s|, i requires 0 <= i < |s| => s[i] as int)
  }

  /** A string as a sort key: code points in order, behind a marker so that a missing
      field sorts before every present one. */
  function TextKey(s: string): seq<int> {
    [0] + CodePoints(s)
  }

  /** Code-point order on strings, which is the order of their UTF-8 bytes: a prefix comes
      first, and otherwise the first character that differs decides. */
  predicate CodePointLeq(s: string, t: string) {
    s <= t || exists i :: 0 <= i < |s| && i < |t| && s[..i] == t[..i] && s[i] < t[i]
  }

  /** Past a common first character, code-point order is decided by the rest. */
  lemma CodePointLeqTail(s: string, t: string)
    requires |s| > 0 && |t| > 0 && s[0] == t[0]
    ensures CodePointLeq(s, t) <==> CodePointLeq(s[1..], t[1..])
  {
    if exists i :: 0 <= i < |s| && i < |t| && s[..i] == t[..i] && s[i] < t[i] {
      var i :| 0 <= i < |s| && i < |t| && s[..i] == t[..i] && s[i] < t[i];
      assert i > 0;
      assert s[1..][..i - 1] == s[1..i] == t[1..i] == t[1..][..i - 1];
      assert s[1..][i - 1] < t[1..][i - 1];
    }
    if exists i :: 0 <= i < |s| - 1 && i < |t| - 1 && s[1..][..i] == t[1..][..i] && s[1..][i] < t[1..][i] {
      var i :| 0 <= i < |s| - 1 && i < |t| - 1 && s[1..][..i] == t[1..][..i] && s[1..][i] < t[1..][i];
      assert s[..i + 1] == [s[0]] + s[1..][..i] == [t[0]] + t[1..][..i] == t[..i + 1];
      assert s[i + 1] < t[i + 1];
    }
    if s[1..] <= t[1..] {
      assert s == [s[0]] + s[1..] && t == [t[0]] + t[1..];
    }
  }

  /** Lexicographic order on code points is code-point order on the strings. */
  lemma {:induction false} CodePointsOrder(s: string, t: string)
    ensures LexLeq(CodePoints(s), CodePoints(t)) <==> CodePointLeq(s, t)
    decreases |s|
  {
    var a, b := CodePoints(s), CodePoints(t);
    if |s| > 0 && |t| > 0 {
      if s[0] < t[0] {
        assert s[..0] == t[..0];
      } else if s[0] > t[0] {
        if exists i :: 0 <= i < |s| && i < |t| && s[..i] == t[..i] && s[i] < t[i] {
          var i :| 0 <= i < |s| && i < |t| && s[..i] == t[..i] && s[i] < t[i];
          assert i > 0 ==> s[..i][0] == t[..i][0];
        }
      } else {
        assert a[1..] == CodePoints(s[1..]) && b[1..] == CodePoints(t[1..]);
        CodePointsOrder(s[1..], t[1..]);
        CodePointLeqTail(s, t);
      }
    }
  }

  /** Text keys compare as their strings do in code-point order. */
  lemma TextKeyOrder(s: string, t: string)
    ensures LexLeq(TextKey(s), TextKey(t)) <==> CodePointLeq(s, t)
  {
    assert TextKey(s)[1..] == CodePoints(s) && TextKey(t)[1..] == CodePoints(t);
    CodePointsOrder(s, t);
  }

  function OptionalTextKey(s: Option<string>): seq<int> {
    if s.Some? then TextKey(s.value) else []
  }

  function OptionalNumberKey(n: Option<int>): seq<int> {
    if n.Some? then [0, n.value] else []
  }

  /** The fields a task document has. */
  predicate IsTaskField(field: string) {
    field == "createdAt" || field == "updatedAt" || field == "dueDate" || field == "aiDueDate" ||
    field == "title" || field == "description" || field == "category" || field == "aiCategory" ||
    field == "completed" || field == "_id"
  }

  /** The value `sort({[field]: ±1})` orders by. A field the documents do not have sorts
      every document equal. */
  function FieldKey(field: string, t: Task): (k: seq<int>)
    ensures !IsTaskField(field) ==> k == []
  {
    if field == "createdAt" then [0, t.createdAt]
    else if field == "updatedAt" then [0, t.updatedAt]
    else if field == "dueDate" then OptionalNumberKey(t.dueDate)
    else if field == "aiDueDate" then OptionalNumberKey(t.aiDueDate)
    else if field == "title" then TextKey(t.title)
    else if field == "description" then OptionalTextKey(t.description)
    else if field == "category" then OptionalTextKey(t.category)
    else if field == "aiCategory" then OptionalTextKey(t.aiCategory)
    else if field == "completed" then [0, if t.completed then 1 else 0]
    else if field == "_id" then [0, t.id]
    else []
  }

  /** `a` may precede `b` in an ascending sort on `field`. */
  predicate KeyLeq(field: string, a: Task, b: Task) {
    LexLeq(FieldKey(field, a), FieldKey(field, b))
  }

  /** A number behind the marker compares by size. */
  lemma NumberKeyOrder(x: int, y: int)
    ensures LexLeq([0, x], [0, y]) <==> x <= y
  {
    assert [0, x][1..] == [x] && [0, y][1..] == [y];
    assert [x][1..] == [] && [y][1..] == [];
    assert LexLeq([x], [y]) <==> x <= y;
  }

  /** An optional number key: a missing value first, then present values by size. */
  lemma OptionalNumberKeyOrder(x: Option<int>, y: Option<int>)
    ensures LexLeq(OptionalNumberKey(x), OptionalNumberKey(y)) <==> x.None? || (y.Some? && x.value <= y.value)
  {
    if x.Some? && y.Some? {
      NumberKeyOrder(x.value, y.value);
    }
  }

  /** An optional text key: a missing value first, then present values in code-point order. */
  lemma OptionalTextKeyOrder(x: Option<string>, y: Option<string>)
    ensures LexLeq(OptionalTextKey(x), OptionalTextKey(y)) <==> x.None? || (y.Some? && CodePointLeq(x.value, y.value))
  {
    if x.Some? && y.Some? {
      TextKeyOrder(x.value, y.value);
    }
  }

  /** The store's ascending order on each field: instants and identifiers by value, `false`
      before `true`, texts in code-point order, a missing value before every present one;
      on a field the documents do not have, every document ranks equal. */
  lemma FieldKeyOrder(field: string, a: Task, b: Task)
    ensures field == "createdAt" ==> (KeyLeq(field, a, b) <==> a.createdAt <= b.createdAt)
    ensures field == "updatedAt" ==> (KeyLeq(field, a, b) <==> a.updatedAt <= b.updatedAt)
    ensures field == "_id" ==> (KeyLeq(field, a, b) <==> a.id <= b.id)
    ensures field == "completed" ==> (KeyLeq(field, a, b) <==> !a.completed || b.completed)
    ensures field == "dueDate" ==>
      (KeyLeq(field, a, b) <==> a.dueDate.None? || (b.dueDate.Some? && a.dueDate.value <= b.dueDate.value))
    ensures field == "aiDueDate" ==>
      (KeyLeq(field, a, b) <==> a.aiDueDate.None? || (b.aiDueDate.Some? && a.aiDueDate.value <= b.aiDueDate.value))
    ensures field == "title" ==> (KeyLeq(field, a, b) <==> CodePointLeq(a.title, b.title))
    ensures field == "description" ==> (KeyLeq(field, a, b) <==>
      a.description.None? || (b.description.Some? && CodePointLeq(a.description.value, b.description.value)))
    ensures field == "category" ==> (KeyLeq(field, a, b) <==>
      a.category.None? || (b.category.Some? && CodePointLeq(a.category.value, b.category.value)))
    ensures field == "aiCategory" ==> (KeyLeq(field, a, b) <==>
      a.aiCategory.None? || (b.aiCategory.Some? && CodePointLeq(a.aiCategory.value, b.aiCategory.value)))
    ensures !IsTaskField(field) ==> KeyLeq(field, a, b) && KeyLeq(field, b, a)
  {
    if field == "createdAt" {
      NumberKeyOrder(a.createdAt, b.createdAt);
    } else if field == "updatedAt" {
      NumberKeyOrder(a.updatedAt, b.updatedAt);
    } else if field == "_id" {
      NumberKeyOrder(a.id, b.id);
    } else if field == "completed" {
      NumberKeyOrder(if a.completed then 1 else 0, if b.completed then 1 else 0);
    } else if field == "dueDate" {
      OptionalNumberKeyOrder(a.dueDate, b.dueDate);
    } else if field == "aiDueDate" {
      OptionalNumberKeyOrder(a.aiDueDate, b.aiDueDate);
    } else if field == "title" {
      TextKeyOrder(a.title, b.title);
    } else if field == "description" {
      OptionalTextKeyOrder(a.description, b.description);
    } else if field == "category" {
      OptionalTextKeyOrder(a.category, b.category);
    } else if field == "aiCategory" {
      OptionalTextKeyOrder(a.aiCategory, b.aiCategory);
    }
  }

  function KeyFor(field: string): Task -> seq<int> {
    (t: Task) => FieldKey(field, t)
  }

  /** `(page - 1) * limit`. */
  function Skip(page: int, limit: int): int {
    (page - 1) * limit
  }

  /** `.skip(skip).limit(limit)`: the part of `s` from offset `skip` holding at most `limit`
      elements. */
  function Paginate<T>(s: seq<T>, page: int, limit: int): (r: seq<T>)
    requires page >= 1 && limit >= 1
    ensures |r| <= limit
    ensures forall k :: 0 <= k < |r| ==> Skip(page, limit) + k < |s| && r[k] == s[Skip(page, limit) + k]
    ensures |r| == if Skip(page, limit) >= |s| then 0
                   else if |s| - Skip(page, limit) < limit then |s| - Skip(page, limit) else limit
  {
    var skip := Skip(page, limit);
    assert skip >= 0 by { assert (page - 1) * limit >= 0 * limit; }
    if skip >= |s| then []
    else if |s| - skip < limit then s[skip..]
    else s[skip..skip + limit]
  }

  /** `Math.ceil(count / limit)`: the least number of pages of `limit` that hold `count`. */
  function TotalPages(count: nat, limit: int): (n: nat)
    requires limit >= 1
    ensures n * limit >= count
    ensures n == 0 || (n - 1) * limit < count
  {
    var n := (count + limit - 1) / limit;
    assert n * limit <= count + limit - 1 < n * limit + limit;
    assert (n - 1) * limit == n * limit - limit;
    n
  }

  /** Runs the route against one snapshot of the collection. The snapshot is a value, so
      the route cannot change the store. */
  method Search(ts: seq<Task>, p: SearchParams, now: int) returns (r: SearchResponse)
    requires PageOf(p) >= 1 && LimitOf(p) >= 1
    ensures var sorted := SortByKey(Matching(ts, p, now), KeyFor(SortField(p)), Descending(p));
      r.todos == Paginate(sorted, PageOf(p), LimitOf(p))
    ensures |r.todos| <= LimitOf(p)
    ensures forall k :: 0 <= k < |r.todos| ==> r.todos[k] in ts && Selected(p, now, r.todos[k])
    ensures SortedBy(r.todos, KeyFor(SortField(p)), Descending(p))
    ensures r.pagination.currentPage == PageOf(p)
    ensures r.pagination.totalCount == CountWhere(ts, (t: Task) => Selected(p, now, t))
    ensures r.pagination.totalPages == TotalPages(r.pagination.totalCount, LimitOf(p))
    ensures r.pagination.hasNext <==> PageOf(p) < r.pagination.totalPages
    ensures r.pagination.hasPrev <==> PageOf(p) > 1
  {
    var filter := BuildFilter(p, now);
    var page, limit := PageOf(p), LimitOf(p);
    var key := KeyFor(SortField(p));
    var desc := Descending(p);
    var found := Find(ts, filter);
    FindSelected(ts, filter, p, now);
    var sorted := SortByKey(found, key, desc);
    var todos := Paginate(sorted, page, limit);
    SortedBySortByKey(found, key, desc);
    MatchingSortedSound(ts, p, now, key, desc);
    PaginateSorted(sorted, page, limit, key, desc);
    var totalCount := CountWhere(ts, (t: Task) => Selected(p, now, t));
    var totalPages := TotalPages(totalCount, limit);
    r := SearchResponse(todos, Pagination(page, totalPages, totalCount, page < totalPages, page > 1));
  }

  /** A filter that agrees with the request on every task finds exactly the selected tasks. */
  lemma FindSelected(ts: seq<Task>, f: Filter, p: SearchParams, now: int)
    requires forall t :: Matches(f, t) <==> Selected(p, now, t)
    ensures Find(ts, f) == Matching(ts, p, now)
  {
    WhereCongruent(ts, (t: Task) => Matches(f, t), (t: Task) => Selected(p, now, t));
  }

  /** Sorting the selected tasks keeps them selected and drawn from the snapshot. */
  lemma MatchingSortedSound(ts: seq<Task>, p: SearchParams, now: int, key: Task -> seq<int>, desc: bool)
    ensures var sorted := SortByKey(Matching(ts, p, now), key, desc);
      forall k :: 0 <= k < |sorted| ==> sorted[k] in ts && Selected(p, now, sorted[k])
  {
    var found := Matching(ts, p, now);
    var sorted := SortByKey(found, key, desc);
    forall k | 0 <= k < |sorted| ensures sorted[k] in ts && Selected(p, now, sorted[k]) {
      assert sorted[k] in multiset(sorted);
      assert sorted[k] in found;
    }
  }

  /** A page of a sorted sequence is sorted, and holds only elements of the sequence. */
  lemma PaginateSorted<T>(s: seq<T>, page: int, limit: int, key: T -> seq<int>, desc: bool)
    requires page >= 1 && limit >= 1
    ensures forall k :: 0 <= k < |Paginate(s, page, limit)| ==> Paginate(s, page, limit)[k] in s
    ensures SortedBy(s, key, desc) ==> SortedBy(Paginate(s, page, limit), key, desc)
  {
    var r := Paginate(s, page, limit);
    var skip := Skip(page, limit);
    if SortedBy(s, key, desc) {
      forall i, j | 0 <= i < j < |r| ensures InOrder(key(r[i]), key(r[j]), desc) {
        assert r[i] == s[skip + i] && r[j] == s[skip + j];
      }
    }
  }

  lemma MulMonotone(a: int, b: int, c: int)
    requires a <= b && c >= 0
    ensures a * c <= b * c
  {
    assert b * c - a * c == (b - a) * c;
  }

  /** The pages partition the sorted matches: element `k` is at position `k % limit` of page
      `k / limit + 1`. */
  lemma PageHolds<T>(s: seq<T>, limit: int, k: nat)
    requires limit >= 1 && k < |s|
    ensures var page := k / limit + 1;
      k % limit < |Paginate(s, page, limit)| && Paginate(s, page, limit)[k % limit] == s[k]
  {
    var page := k / limit + 1;
    assert Skip(page, limit) == (k / limit) * limit;
    assert Skip(page, limit) + k % limit == k;
  }

  /** `hasNext` holds exactly when the next page is not empty. */
  lemma HasNextIffNextPageNonEmpty<T>(s: seq<T>, page: int, limit: int)
    requires page >= 1 && limit >= 1
    ensures page < TotalPages(|s|, limit) <==> |Paginate(s, page + 1, limit)| > 0
  {
    var n := TotalPages(|s|, limit);
    assert Skip(page + 1, limit) == page * limit;
    if page < n {
      MulMonotone(page, n - 1, limit);
    } else {
      MulMonotone(n, page, limit);
    }
  }

  /** 25 matches at 10 per page make 3 pages; page 2 has both neighbours, page 3 has no
      next page. */
  lemma PaginationExample()
    ensures TotalPages(25, 10) == 3
    ensures 2 < TotalPages(25, 10) && 2 > 1
    ensures !(3 < TotalPages(25, 10))
  {
  }
}
