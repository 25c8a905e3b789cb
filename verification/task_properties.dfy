/** Properties relating several handler calls: the store invariant every
    handler keeps, isolation between users, and the round trips between
    create, get, update and delete. */
module TaskProperties {
  import opened JsValues
  import opened Tasks
  import opened TaskController

  /** Every row is keyed by its id, has a non-empty status and a non-zero
      priority: the defaults of create and the truthiness gate of update keep
      both fields from ever holding a falsy value. */
  ghost predicate ValidStore(store: Store)
  {
    && WellKeyed(store)
    && forall id :: id in store ==> store[id].status != "" && store[id].priority != 0
  }

  lemma CreatePreservesValid(requester: UserId, body: CreateBody, freshId: TaskId, now: int, store: Store)
    requires freshId !in store
    requires ValidStore(store)
    ensures ValidStore(CreateTask(requester, body, freshId, now, store).store)
  {
  }

  lemma UpdatePreservesValid(requester: UserId, id: TaskId, body: UpdateBody, store: Store)
    requires ValidStore(store)
    ensures ValidStore(UpdateTask(requester, id, body, store).store)
  {
  }

  lemma DeletePreservesValid(requester: UserId, id: TaskId, store: Store)
    requires ValidStore(store)
    ensures ValidStore(DeleteTask(requester, id, store).store)
  {
  }

  /** No handler called by one user changes what another user owns. */
  lemma CreateIsolation(requester: UserId, other: UserId, body: CreateBody, freshId: TaskId, now: int, store: Store)
    requires freshId !in store
    requires other != requester
    ensures ViewOf(CreateTask(requester, body, freshId, now, store).store, other) == ViewOf(store, other)
  {
  }

  lemma UpdateIsolation(requester: UserId, other: UserId, id: TaskId, body: UpdateBody, store: Store)
    requires other != requester
    ensures ViewOf(UpdateTask(requester, id, body, store).store, other) == ViewOf(store, other)
  {
  }

  lemma DeleteIsolation(requester: UserId, other: UserId, id: TaskId, store: Store)
    requires other != requester
    ensures ViewOf(DeleteTask(requester, id, store).store, other) == ViewOf(store, other)
  {
  }

  /** What get, update and delete answer depends only on the requester's own
      rows: two stores that agree on them give the same responses. */
  lemma ResponsesDependOnOwnViewOnly(requester: UserId, id: TaskId, body: UpdateBody, s1: Store, s2: Store)
    requires ViewOf(s1, requester) == ViewOf(s2, requester)
    ensures GetTaskById(requester, id, s1).response == GetTaskById(requester, id, s2).response
    ensures UpdateTask(requester, id, body, s1).response == UpdateTask(requester, id, body, s2).response
    ensures DeleteTask(requester, id, s1).response == DeleteTask(requester, id, s2).response
  {
  }

  /** Another user's row is indistinguishable from a missing one: get, update
      and delete answer exactly as if the row did not exist, and change nothing. */
  lemma ForeignIsLikeMissing(requester: UserId, id: TaskId, body: UpdateBody, store: Store)
    requires id in store && store[id].userId != requester
    ensures GetTaskById(requester, id, store).response == GetTaskById(requester, id, store - {id}).response == NotFound
    ensures UpdateTask(requester, id, body, store) == Handled(NotFound, store)
    ensures UpdateTask(requester, id, body, store - {id}).response == NotFound
    ensures DeleteTask(requester, id, store) == Handled(NotFound, store)
    ensures DeleteTask(requester, id, store - {id}).response == NotFound
  {
  }

  /** A created row is immediately visible to its creator and to nobody else. */
  lemma CreateThenGet(requester: UserId, other: UserId, body: CreateBody, freshId: TaskId, now: int, store: Store)
    requires freshId !in store
    requires other != requester
    ensures var h := CreateTask(requester, body, freshId, now, store);
      && GetTaskById(requester, freshId, h.store).response == Ok(h.response.task)
      && GetTaskById(other, freshId, h.store).response == NotFound
  {
  }

  /** Deleting a freshly created row restores the store. */
  lemma CreateThenDeleteRestores(requester: UserId, body: CreateBody, freshId: TaskId, now: int, store: Store)
    requires freshId !in store
    ensures var h := CreateTask(requester, body, freshId, now, store);
      DeleteTask(requester, freshId, h.store) == Handled(Deleted, store)
  {
    var h := CreateTask(requester, body, freshId, now, store);
    assert h.store - {freshId} == store;
  }

  /** After a delete of an owned row the row is gone for everyone: get
      answers 404 and a second delete answers 404 without changing the store. */
  lemma DeleteThenGet(requester: UserId, anyone: UserId, id: TaskId, store: Store)
    requires OwnedBy(store, id, requester)
    ensures var after := DeleteTask(requester, id, store).store;
      && GetTaskById(anyone, id, after).response == NotFound
      && DeleteTask(anyone, id, after) == Handled(NotFound, after)
  {
  }

  /** Applying the same update twice leaves the store as applying it once. */
  lemma UpdateIdempotent(requester: UserId, id: TaskId, body: UpdateBody, store: Store)
    ensures var once := UpdateTask(requester, id, body, store);
      UpdateTask(requester, id, body, once.store) == once
  {
  }

  /** No present and truthy field in the body. */
  predicate NoTruthyField(body: UpdateBody)
  {
    && !TruthyStr(body.title)
    && !TruthyStr(body.description)
    && !TruthyStr(body.status)
    && !TruthyInt(body.priority)
    && !TruthyStr(body.dueDate)
  }

  /** An update whose fields are all absent or falsy (empty strings, priority 0)
      returns the row as it is and changes nothing; for an owned row it still
      answers 200. */
  lemma UpdateWithoutTruthyFieldsIsNoop(requester: UserId, id: TaskId, body: UpdateBody, store: Store)
    requires NoTruthyField(body)
    ensures UpdateTask(requester, id, body, store).store == store
    ensures OwnedBy(store, id, requester) ==> UpdateTask(requester, id, body, store).response == Ok(store[id])
  {
  }

  /** The set of ids of a sequence with distinct ids has one element per row. */
  lemma {:induction false} DistinctIdsCount(ts: seq<Task>)
    requires DistinctIds(ts)
    ensures |set x | x in ts :: x.id| == |ts|
  {
    if ts != [] {
      var tail := ts[1..];
      assert DistinctIds(tail);
      DistinctIdsCount(tail);
      assert ts == [ts[0]] + tail;
      var ids := set x | x in ts :: x.id;
      var tailIds := set x | x in tail :: x.id;
      assert ids == tailIds + {ts[0].id};
      assert ts[0].id !in tailIds;
    }
  }

  /** An unfiltered listing holds exactly the requester's rows, one each. */
  lemma UnfilteredListingIsOwnView(requester: UserId, ts: seq<Task>, store: Store)
    requires WellKeyed(store)
    requires IsListing(ts, store, requester, ListQuery(None, None))
    ensures (set x | x in ts :: x.id) == ViewOf(store, requester).Keys
    ensures |ts| == |ViewOf(store, requester)|
    ensures forall id :: id in ViewOf(store, requester) ==> ViewOf(store, requester)[id] in ts
  {
    var v := ViewOf(store, requester);
    var ids := set x | x in ts :: x.id;
    forall id | id in v
      ensures id in ids
    {
      assert Matches(store[id], requester, ListQuery(None, None));
      assert store[id] in ts;
    }
    forall id | id in ids
      ensures id in v
    {
      var x :| x in ts && x.id == id;
      var k :| 0 <= k < |ts| && ts[k] == x;
      assert Matches(ts[k], requester, ListQuery(None, None));
    }
    DistinctIdsCount(ts);
  }

  /** A listing holds none of another user's rows, whatever the filters. */
  lemma ListingHidesOthers(requester: UserId, q: ListQuery, ts: seq<Task>, store: Store)
    requires IsListing(ts, store, requester, q)
    ensures forall x :: x in ts ==> x.userId == requester
    ensures ViewOf(store, requester) == map[] ==> ts == []
  {
    if ts != [] {
      assert Matches(ts[0], requester, q);
      assert ts[0].id in ViewOf(store, requester);
    }
  }

  /** The walk-through: U1 creates {title: "A"} and gets 201 with status TODO
      and priority 1; U2's listing is empty; U1 gets the row (200), deletes it
      (200), and a second get answers 404. */
  lemma Walkthrough(ts: seq<Task>)
    requires IsListing(ts, CreateTask("u1", CreateBody("A", None, None, None, None), "t1", 0, map[]).store, "u2", ListQuery(None, None))
    ensures var created := CreateTask("u1", CreateBody("A", None, None, None, None), "t1", 0, map[]);
      && StatusCode(created.response) == 201
      && created.response.task.status == "TODO"
      && created.response.task.priority == 1
      && created.store == map["t1" := Task("t1", "A", None, "TODO", 1, None, "u1", 0)]
      && ts == []
      && GetTaskById("u1", "t1", created.store).response == Ok(created.response.task)
      && StatusCode(DeleteTask("u1", "t1", created.store).response) == 200
      && GetTaskById("u1", "t1", DeleteTask("u1", "t1", created.store).store).response == NotFound
  {
    var created := CreateTask("u1", CreateBody("A", None, None, None, None), "t1", 0, map[]);
    ListingHidesOthers("u2", ListQuery(None, None), ts, created.store);
    assert ViewOf(created.store, "u2").Keys == {};
  }
}
