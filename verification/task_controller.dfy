/** The five request handlers over the Task resource.

    Each handler takes the authenticated requester's id, the request's inputs and
    the store, and yields the HTTP outcome together with the store after the
    call. The database operations the handlers issue (`findFirst`, `findMany`,
    `create`, `update`, `delete`) are given their map meaning. Identity lookup,
    response shaping and the 500 paths for database failures are not modelled. */
module TaskController {
  import opened JsValues
  import opened Tasks

  /** Request body of create. `title` is required by the body's type. */
  datatype CreateBody = CreateBody(
    title: string,
    description: Option<string>,
    status: Option<string>,
    priority: Option<int>,
    dueDate: Option<string>)

  /** Request body of update: any subset of the editable fields. */
  datatype UpdateBody = UpdateBody(
    title: Option<string>,
    description: Option<string>,
    status: Option<string>,
    priority: Option<int>,
    dueDate: Option<string>)

  /** Query of list. `status` is the raw query text; `priority` is the query
      already converted to a number, `None` when the query text is absent or
      empty (an empty query string is falsy, so it filters nothing, while the
      text "0" is truthy and filters on priority 0). */
  datatype ListQuery = ListQuery(status: Option<string>, priority: Option<int>)

  /** The HTTP outcome: 201 with the task, 200 with a task, 200 with a list,
      200 with a confirmation, or 404. */
  datatype Response =
    | Created(task: Task)
    | Ok(task: Task)
    | OkList(tasks: seq<Task>)
    | Deleted
    | NotFound

  /** What a handler returns: its response and the store after the call. */
  datatype Handled = Handled(response: Response, store: Store)

  const DefaultStatus: string := "TODO"
  const DefaultPriority: int := 1

  /** The HTTP status each response is sent with: 201 set explicitly by
      create, 404 set explicitly on a failed ownership lookup, and the 200
      that `res.json` sends by default everywhere else. */
  function StatusCode(r: Response): (code: int)
    ensures code == 404 <==> r.NotFound?
    ensures code == 201 <==> r.Created?
    ensures code == 200 <==> r.Ok? || r.OkList? || r.Deleted?
  {
    match r
    case Created(_) => 201
    case NotFound => 404
    case _ => 200
  }

  /** `createTask`: inserts one row owned by the requester under the id and
      timestamp the database assigns, with `status || 'TODO'` and
      `priority || 1`. */
  function CreateTask(requester: UserId, body: CreateBody, freshId: TaskId, now: int, store: Store): (h: Handled)
    requires freshId !in store
    ensures h.response.Created?
    ensures h.response.task.id == freshId && h.response.task.userId == requester
    ensures h.response.task.createdAt == now
    ensures h.response.task.title == body.title
    ensures h.response.task.description == body.description
    ensures h.response.task.dueDate == body.dueDate
    ensures !TruthyStr(body.status) ==> h.response.task.status == "TODO"
    ensures TruthyStr(body.status) ==> h.response.task.status == body.status.value
    ensures !TruthyInt(body.priority) ==> h.response.task.priority == 1
    ensures TruthyInt(body.priority) ==> h.response.task.priority == body.priority.value
    ensures h.response.task.priority != 0 && h.response.task.status != ""
    ensures h.store.Keys == store.Keys + {freshId}
    ensures |h.store| == |store| + 1
    ensures h.store[freshId] == h.response.task
    ensures forall id :: id in store ==> h.store[id] == store[id]
  {
    var task := Task(
      freshId,
      body.title,
      body.description,
      OrStr(body.status, DefaultStatus),
      OrInt(body.priority, DefaultPriority),
      body.dueDate,
      requester,
      now);
    Handled(Created(task), store[freshId := task])
  }

  /** The list filter: the requester's rows, with equality on status when the
      status query is truthy and on priority when a priority is given. */
  predicate Matches(t: Task, requester: UserId, q: ListQuery)
  {
    && t.userId == requester
    && (TruthyStr(q.status) ==> t.status == q.status.value)
    && (q.priority.Some? ==> t.priority == q.priority.value)
  }

  /** What `findMany` with the filter and `orderBy: { createdAt: 'desc' }`
      returns: every matching row exactly once, taken from the store, newest
      first. */
  ghost predicate IsListing(ts: seq<Task>, store: Store, requester: UserId, q: ListQuery)
  {
    && (forall i :: 0 <= i < |ts| ==> ts[i].id in store && store[ts[i].id] == ts[i])
    && (forall i :: 0 <= i < |ts| ==> Matches(ts[i], requester, q))
    && (forall id :: id in store && Matches(store[id], requester, q) ==> store[id] in ts)
    && DistinctIds(ts)
    && SortedNewestFirst(ts)
  }

  /** `getTasks`: lists the requester's rows matching the filters. The store
      is only read. */
  method ListTasks(requester: UserId, q: ListQuery, store: Store) returns (h: Handled)
    requires WellKeyed(store)
    ensures h.store == store
    ensures h.response.OkList?
    ensures IsListing(h.response.tasks, store, requester, q)
  {
    var pending := store.Keys;
    var ts: seq<Task> := [];
    while pending != {}
      invariant pending <= store.Keys
      invariant forall x :: x in ts ==> x.id in store && store[x.id] == x
      invariant forall x :: x in ts ==> Matches(x, requester, q) && x.id !in pending
      invariant forall id :: id in store && id !in pending && Matches(store[id], requester, q) ==> store[id] in ts
      invariant DistinctIds(ts)
      invariant SortedNewestFirst(ts)
      decreases pending
    {
      var id :| id in pending;
      pending := pending - {id};
      if Matches(store[id], requester, q) {
        InsertKeepsIdsDistinct(store[id], ts);
        ts := InsertNewestFirst(store[id], ts);
      }
    }
    h := Handled(OkList(ts), store);
  }

  /** `findFirst({ where: { id, userId } })`. */
  function FindOwned(store: Store, id: TaskId, requester: UserId): (r: Option<Task>)
    ensures r.Some? <==> OwnedBy(store, id, requester)
    ensures r.Some? ==> r.value == store[id]
  {
    if id in store && store[id].userId == requester then Some(store[id]) else None
  }

  /** `getTaskById`: the row if it exists and belongs to the requester; a
      missing row and another user's row both give 404. */
  function GetTaskById(requester: UserId, id: TaskId, store: Store): (h: Handled)
    ensures h.store == store
    ensures h.response.Ok? <==> id in store && store[id].userId == requester
    ensures h.response.Ok? ==> h.response.task == store[id]
    ensures !h.response.Ok? ==> h.response == NotFound
  {
    match FindOwned(store, id, requester)
    case Some(t) => Handled(Ok(t), store)
    case None => Handled(NotFound, store)
  }

  /** The update's `data`: only fields present and truthy in the body are
      written; everything else, and in particular id, owner and creation time,
      keeps its value. */
  function ApplyPatch(t: Task, body: UpdateBody): (u: Task)
    ensures u.id == t.id && u.userId == t.userId && u.createdAt == t.createdAt
    ensures TruthyStr(body.title) ==> u.title == body.title.value
    ensures !TruthyStr(body.title) ==> u.title == t.title
    ensures TruthyStr(body.description) ==> u.description == body.description
    ensures !TruthyStr(body.description) ==> u.description == t.description
    ensures TruthyStr(body.status) ==> u.status == body.status.value
    ensures !TruthyStr(body.status) ==> u.status == t.status
    ensures TruthyInt(body.priority) ==> u.priority == body.priority.value
    ensures !TruthyInt(body.priority) ==> u.priority == t.priority
    ensures TruthyStr(body.dueDate) ==> u.dueDate == body.dueDate
    ensures !TruthyStr(body.dueDate) ==> u.dueDate == t.dueDate
  {
    t.(
      title := SpreadStr(t.title, body.title),
      description := SpreadOptStr(t.description, body.description),
      status := SpreadStr(t.status, body.status),
      priority := SpreadInt(t.priority, body.priority),
      dueDate := SpreadOptStr(t.dueDate, body.dueDate))
  }

  /** `updateTask`: 404 and no change unless the row exists and belongs to the
      requester; otherwise the truthy fields of the body are written to that
      row alone. */
  function UpdateTask(requester: UserId, id: TaskId, body: UpdateBody, store: Store): (h: Handled)
    ensures !OwnedBy(store, id, requester) ==> h == Handled(NotFound, store)
    ensures OwnedBy(store, id, requester) ==> h.response.Ok? && h.response.task == ApplyPatch(store[id], body)
    ensures h.store.Keys == store.Keys
    ensures OwnedBy(store, id, requester) ==> h.store[id] == h.response.task
    ensures forall k :: k in store && k != id ==> h.store[k] == store[k]
  {
    match FindOwned(store, id, requester)
    case None => Handled(NotFound, store)
    case Some(existing) =>
      var updated := ApplyPatch(existing, body);
      Handled(Ok(updated), store[id := updated])
  }

  /** `deleteTask`: 404 and no change unless the row exists and belongs to the
      requester; otherwise exactly that row is removed. */
  function DeleteTask(requester: UserId, id: TaskId, store: Store): (h: Handled)
    ensures !OwnedBy(store, id, requester) ==> h == Handled(NotFound, store)
    ensures OwnedBy(store, id, requester) ==> h.response == Deleted
    ensures OwnedBy(store, id, requester) ==> h.store.Keys == store.Keys - {id}
    ensures forall k :: k in h.store ==> k in store && h.store[k] == store[k]
  {
    match FindOwned(store, id, requester)
    case None => Handled(NotFound, store)
    case Some(_) => Handled(Deleted, store - {id})
  }
}
