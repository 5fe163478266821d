/** The collection route (`/api/todos`): `GET` lists every task newest first (the order is
    `Store.NewestFirst`); `POST` validates a new task's title, normalises the body and
    inserts the record. */
module Todos {
  import opened Wrappers
  import opened Text
  import opened Tasks
  import opened Store
  import ImportExport

  /** The request body as far as the route reads it. */
  datatype CreateBody = CreateBody(
    title: Scalar,
    description: Scalar,
    category: Scalar,
    completed: Scalar,
    dueDate: DateInput)

  /** The outcome of the title check: rejected, thrown (`trim` of a non-string), or the
      `todoData` object. */
  datatype Checked = TitleMissing | NotAString | Valid(draft: Draft)

  /** `x?.trim()` can be evaluated: the value is absent, `null` or a string. Any other value
      has no `trim` method, and calling it throws. */
  predicate Trimmable(x: Scalar) {
    x.Undefined? || x.Null? || x.Str?
  }

  /** `x?.trim() || ''`: the trimmed text of a string, and `''` for an absent or `null` value. */
  function TrimmedOrEmpty(x: Scalar): (r: string)
    requires Trimmable(x)
    ensures x.Str? ==> r == Trim(x.s)
    ensures !x.Str? ==> r == ""
  {
    if x.Str? then Trim(x.s) else ""
  }

  datatype CreateResponse = BadRequest(error: string) | ServerError(error: string) | Created(todo: Task)

  const TitleRequired := "Title is required"
  const FailedToCreate := "Failed to create todo"

  /** `!body.title || body.title.trim().length === 0`, then the `todoData` literal, whose
      `trim` calls throw for a description or category that is neither absent, `null` nor a
      string. The record never takes `completed` from the body. */
  function Check(body: CreateBody): (c: Checked)
    ensures c.TitleMissing? <==> !Truthy(body.title) || (body.title.Str? && IsBlank(body.title.s))
    ensures c.NotAString? <==>
      Truthy(body.title) &&
      (!body.title.Str? || (!IsBlank(body.title.s) && !(Trimmable(body.description) && Trimmable(body.category))))
    ensures c.Valid? ==>
      body.title.Str? && c.draft.title == Trim(body.title.s) &&
      c.draft.title != "" && Trim(c.draft.title) == c.draft.title &&
      Trimmable(body.description) && c.draft.description == TrimmedOrEmpty(body.description) &&
      Trimmable(body.category) && c.draft.category == TrimmedOrEmpty(body.category) &&
      !c.draft.completed && c.draft.dueDate == body.dueDate
  {
    if !Truthy(body.title) then TitleMissing
    else if !body.title.Str? then NotAString
    else if IsBlank(body.title.s) then TitleMissing
    else if !Trimmable(body.description) || !Trimmable(body.category) then NotAString
    else
      TrimIdempotent(body.title.s);
      Valid(Draft(Trim(body.title.s), TrimmedOrEmpty(body.description), TrimmedOrEmpty(body.category),
                  false, body.dueDate))
  }

  /** `POST`: 400 for a missing or blank title, 500 when the store refuses the record (an
      invalid date) or a `trim` call throws, 201 with the stored record otherwise. */
  method Create(store: TaskStore, body: CreateBody, now: int) returns (r: CreateResponse)
    requires store.Valid()
    modifies store
    ensures store.Valid()
    ensures Check(body).TitleMissing? ==> r == BadRequest(TitleRequired) && store.tasks == old(store.tasks) && store.nextId == old(store.nextId)
    ensures Check(body).NotAString? ==> r == ServerError(FailedToCreate) && store.tasks == old(store.tasks) && store.nextId == old(store.nextId)
    ensures Check(body).Valid? && !Acceptable(Check(body).draft) ==>
      r == ServerError(FailedToCreate) && store.tasks == old(store.tasks) && store.nextId == old(store.nextId)
    ensures Check(body).Valid? && Acceptable(Check(body).draft) ==>
      r == Created(Record(Check(body).draft, old(store.nextId), now)) &&
      store.tasks == old(store.tasks) + [r.todo] && store.nextId == old(store.nextId) + 1
  {
    var checked := Check(body);
    if checked.TitleMissing? {
      return BadRequest(TitleRequired);
    }
    if checked.NotAString? {
      return ServerError(FailedToCreate);
    }
    var created := store.Create(checked.draft, now);
    if created.None? {
      return ServerError(FailedToCreate);
    }
    r := Created(created.value);
  }

  /** A record created through this route has trimmed texts and a non-empty title, so an
      export of it reads back unchanged. */
  lemma CreatedRecordIsTidy(body: CreateBody, id: Id, now: int)
    requires Check(body).Valid?
    ensures ImportExport.Tidy(Record(Check(body).draft, id, now))
  {
    if body.description.Str? {
      TrimIdempotent(body.description.s);
    }
    if body.category.Str? {
      TrimIdempotent(body.category.s);
    }
  }
}
