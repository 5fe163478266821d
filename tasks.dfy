/** The task record and the request-body values the routes inspect. */
module Tasks {
  import opened Wrappers
  import opened Dates

  /** A document identifier, opaque to the core and assigned by the store. */
  type Id = nat

  /** A stored task (the `Todo` interface). Instants are integers (see `Dates`); `createdAt`
      and `updatedAt` are kept by the store. Optional fields are `None` when the document
      lacks them. */
  datatype Task = Task(
    id: Id,
    title: string,
    description: Option<string>,
    completed: bool,
    category: Option<string>,
    dueDate: Option<int>,
    aiCategory: Option<string>,
    aiDueDate: Option<int>,
    createdAt: int,
    updatedAt: int)

  /** A JSON value of a request body as far as JavaScript truthiness looks at it. */
  datatype Scalar = Undefined | Null | Bool(b: bool) | Num(n: int) | Str(s: string) | Composite

  /** `Boolean(v)`. */
  predicate Truthy(v: Scalar) {
    match v
    case Undefined => false
    case Null => false
    case Bool(b) => b
    case Num(n) => n != 0
    case Str(s) => s != ""
    case Composite => true
  }

  /** A `dueDate` field of a request body: falsy (or absent), or a value that `new Date`
      turns into an instant, or one it turns into an invalid date. */
  datatype DateInput = Falsy | Parsed(instant: int) | Unparseable

  /** What a route hands to `Todo.create`: trimmed texts, a boolean, and the date field. */
  datatype Draft = Draft(title: string, description: string, category: string, completed: bool, dueDate: DateInput)

  predicate IsCompleted(t: Task) {
    t.completed
  }

  /** Overdue as the statistics route queries it: a due instant before `now`, not completed. */
  predicate IsOverdueAt(t: Task, now: int) {
    t.dueDate.Some? && t.dueDate.value < now && !t.completed
  }

  /** Upcoming: due between `now` and seven days on (both inclusive), not completed. */
  predicate IsUpcomingAt(t: Task, now: int) {
    t.dueDate.Some? && now <= t.dueDate.value <= now + WeekMs && !t.completed
  }

  /** The key of `.sort({createdAt: -1})`, used with a descending sort: newest first. */
  function CreatedAtKey(t: Task): seq<int> {
    [t.createdAt]
  }

  predicate UniqueIds(ts: seq<Task>) {
    forall i, j :: 0 <= i < j < |ts| ==> ts[i].id != ts[j].id
  }

  /** The identifiers present in `ts`. */
  function IdsOf(ts: seq<Task>): (r: set<Id>)
    ensures forall k :: 0 <= k < |ts| ==> ts[k].id in r
  {
    if ts == [] then {} else {ts[0].id} + IdsOf(ts[1..])
  }
}
