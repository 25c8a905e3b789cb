/** The Task entity, the abstract task store that stands in for the database
    table, and the ordering the list operation returns tasks in. */
module Tasks {
  import opened JsValues

  type TaskId = string
  type UserId = string

  /** One row of the task table. `createdAt` is the timestamp the database
      assigns on insertion; `dueDate` is kept as the text the client sent. */
  datatype Task = Task(
    id: TaskId,
    title: string,
    description: Option<string>,
    status: string,
    priority: int,
    dueDate: Option<string>,
    userId: UserId,
    createdAt: int)

  /** The persistence layer: rows keyed by their id. */
  type Store = map<TaskId, Task>

  /** Every row is stored under its own id (the table's primary key). */
  ghost predicate WellKeyed(store: Store)
  {
    forall id :: id in store ==> store[id].id == id
  }

  /** The row `id` exists and belongs to `user`: the `where: {id, userId}`
      predicate of the ownership lookups. */
  predicate OwnedBy(store: Store, id: TaskId, user: UserId)
  {
    id in store && store[id].userId == user
  }

  /** The part of the store one user can reach. */
  function ViewOf(store: Store, user: UserId): (v: Store)
    ensures forall id :: id in v <==> OwnedBy(store, id, user)
    ensures forall id :: id in v ==> id in store && v[id] == store[id]
  {
    map id | id in store && store[id].userId == user :: store[id]
  }

  /** Newest first: `orderBy: { createdAt: 'desc' }`. Rows with equal
      timestamps may appear in either order. */
  ghost predicate SortedNewestFirst(ts: seq<Task>)
  {
    forall i, j :: 0 <= i < j < |ts| ==> ts[i].createdAt >= ts[j].createdAt
  }

  /** No row appears twice in a listing. */
  ghost predicate DistinctIds(ts: seq<Task>)
  {
    forall i, j :: 0 <= i < j < |ts| ==> ts[i].id != ts[j].id
  }

  /** Inserts `t` into a newest-first sequence, after every row at least as new. */
  function InsertNewestFirst(t: Task, ts: seq<Task>): (r: seq<Task>)
    requires SortedNewestFirst(ts)
    ensures SortedNewestFirst(r)
    ensures multiset(r) == multiset(ts) + multiset{t}
    ensures forall x :: x in r <==> x == t || x in ts
  {
    if ts == [] || ts[0].createdAt < t.createdAt then
      [t] + ts
    else
      var rest := InsertNewestFirst(t, ts[1..]);
      assert ts == [ts[0]] + ts[1..];
      HeadIsNewest(ts[0], rest);
      assert multiset([ts[0]] + rest) == multiset{ts[0]} + multiset(rest);
      [ts[0]] + rest
  }

  /** A row at least as new as every row of a newest-first sequence can lead it. */
  lemma HeadIsNewest(h: Task, ts: seq<Task>)
    requires SortedNewestFirst(ts)
    requires forall x :: x in ts ==> x.createdAt <= h.createdAt
    ensures SortedNewestFirst([h] + ts)
  {
    var r := [h] + ts;
    forall i, j | 0 <= i < j < |r|
      ensures r[i].createdAt >= r[j].createdAt
    {
      assert r[j] == ts[j - 1];
      if i > 0 {
        assert r[i] == ts[i - 1];
      }
    }
  }

  /** Inserting a row whose id the sequence does not hold keeps ids distinct. */
  lemma {:induction false} InsertKeepsIdsDistinct(t: Task, ts: seq<Task>)
    requires SortedNewestFirst(ts)
    requires DistinctIds(ts)
    requires forall x :: x in ts ==> x.id != t.id
    ensures DistinctIds(InsertNewestFirst(t, ts))
  {
    if ts == [] || ts[0].createdAt < t.createdAt {
    } else {
      assert ts == [ts[0]] + ts[1..];
      InsertKeepsIdsDistinct(t, ts[1..]);
      var rest := InsertNewestFirst(t, ts[1..]);
      assert forall x :: x in rest ==> x.id != ts[0].id;
    }
  }
}
