# Task API request handlers, modelled in Dafny

A model of the task request handlers of a small task-management REST API
(`backend/src/controllers/taskController.ts`). Authenticated users create,
list, fetch, update and delete their own task records. The database is an
abstract store, `map<TaskId, Task>`, and each handler is a function from the
requester's id, the request's inputs and the store to a `Handled(response,
store)` pair. The list handler is a method, because it enumerates the store's
keys, which have no order.

Files:

- `js_values.dfy` (module `JsValues`): optional request values and the
  JavaScript truthiness the handlers rely on. A string is falsy when it is
  absent or `""`. A number is falsy when it is absent or `0`. The module also
  models `v || d` and the `...(v && { f: v })` spread.
- `tasks.dfy` (module `Tasks`): the `Task` row, the store, ownership
  (`OwnedBy`), one user's part of the store (`ViewOf`), and the newest-first
  ordering of listings.
- `task_controller.dfy` (module `TaskController`): the five handlers and the
  response type (`Created` = 201, `Ok`/`OkList`/`Deleted` = 200,
  `NotFound` = 404).
- `task_properties.dfy` (module `TaskProperties`): properties over several
  calls. These cover the store invariant, isolation between users, and the
  create/get/update/delete round trips.

The database assigns the new row's id and creation timestamp. Create takes
both as parameters and requires the id to be unused. The list handler filters
with `Matches` and orders by `createdAt` descending. Rows with equal
timestamps may come back in either order, since the database promises no
order among them.

The priority filter of the list handler is gated on the truthiness of the
query *text* (line 43), not of the parsed number. So `?priority=` filters
nothing, while `?priority=0` filters on priority 0. The model takes the
filter already parsed: `None` means the query text is absent or empty, and
`Some(n)` filters on `n`, including `n == 0`.

## Model

| member | source | states |
|---|---|---|
| JsValues.OrStr | backend/src/controllers/taskController.ts:14 | `status \|\| 'TODO'` yields the supplied value when truthy, the default otherwise, and is never empty when the default is not |
| JsValues.OrInt | backend/src/controllers/taskController.ts:15 | `priority \|\| 1` yields the supplied value when non-zero, the default otherwise, and is never 0 when the default is not |
| JsValues.SpreadStr | backend/src/controllers/taskController.ts:111-113 | a spread string field keeps its previous value unless the patch value is truthy, in which case it takes that value |
| JsValues.SpreadOptStr | backend/src/controllers/taskController.ts:112-115 | the same gate for the optional fields description and dueDate |
| JsValues.SpreadInt | backend/src/controllers/taskController.ts:114 | priority is overwritten only by a non-zero value; 0 or absent keeps the old priority |
| Tasks.InsertNewestFirst | backend/src/controllers/taskController.ts:45 | inserting into a newest-first sequence keeps it sorted by createdAt descending and adds exactly that row (multiset) |
| Tasks.InsertKeepsIdsDistinct | backend/src/controllers/taskController.ts:39-46 | inserting a row whose id is new keeps the listing free of duplicate rows |
| TaskController.StatusCode | backend/src/controllers/taskController.ts:21-153 | Created is sent with 201 (line 21), NotFound with 404 (lines 74, 105, 146), and Ok, OkList and Deleted with the 200 that `res.json` sends by default (lines 48, 77, 119, 153); each code is sent for exactly those responses |
| TaskController.CreateTask | backend/src/controllers/taskController.ts:5-24 | answers 201 with a row owned by the requester under the fresh id; status is TODO when omitted or empty, priority is 1 when omitted or 0, truthy values are kept, so priority is never 0; exactly one key is added and every existing row is unchanged |
| TaskController.ListTasks | backend/src/controllers/taskController.ts:34-51 | answers 200 with exactly the requester's rows matching the status and priority filters, each once, taken from the store, sorted by createdAt non-increasing; the store is unchanged |
| TaskController.FindOwned | backend/src/controllers/taskController.ts:66-71 | the lookup finds a row iff it exists under that id and its owner is the requester, and then returns that row |
| TaskController.GetTaskById | backend/src/controllers/taskController.ts:61-80 | answers Ok(t) iff the store holds t at that id and t belongs to the requester, NotFound otherwise; the store is unchanged |
| TaskController.ApplyPatch | backend/src/controllers/taskController.ts:108-117 | each field is overwritten iff the body's value is present and truthy (empty strings and priority 0 keep the old value); id, owner and createdAt never change |
| TaskController.UpdateTask | backend/src/controllers/taskController.ts:90-122 | a missing or foreign id gives NotFound with the store unchanged; an owned id gives Ok with the patched row, written to that key only, every other row unchanged |
| TaskController.DeleteTask | backend/src/controllers/taskController.ts:132-155 | a missing or foreign id gives NotFound with the store unchanged; an owned id gives Deleted and removes exactly that key |
| TaskProperties.CreatePreservesValid | backend/src/controllers/taskController.ts:10-19 | create keeps every row keyed by its id with a non-empty status and a non-zero priority |
| TaskProperties.UpdatePreservesValid | backend/src/controllers/taskController.ts:108-117 | update keeps that invariant: the truthiness gate never writes an empty status or priority 0 |
| TaskProperties.DeletePreservesValid | backend/src/controllers/taskController.ts:149-151 | delete keeps that invariant |
| TaskProperties.CreateIsolation | backend/src/controllers/taskController.ts:8-19 | a create by one user leaves every other user's rows exactly as they were |
| TaskProperties.UpdateIsolation | backend/src/controllers/taskController.ts:97-117 | an update by one user leaves every other user's rows exactly as they were |
| TaskProperties.DeleteIsolation | backend/src/controllers/taskController.ts:138-151 | a delete by one user leaves every other user's rows exactly as they were |
| TaskProperties.ResponsesDependOnOwnViewOnly | backend/src/controllers/taskController.ts:97-102 | get, update and delete give the same answers on any two stores that agree on the requester's own rows |
| TaskProperties.ForeignIsLikeMissing | backend/src/controllers/taskController.ts:73-74 | on another user's row, get, update and delete answer NotFound, exactly as for a missing row, and change nothing |
| TaskProperties.CreateThenGet | backend/src/controllers/taskController.ts:10-19 | a created row is returned to its creator by get and is NotFound for any other user |
| TaskProperties.CreateThenDeleteRestores | backend/src/controllers/taskController.ts:149-151 | deleting a freshly created row answers Deleted and restores the original store |
| TaskProperties.DeleteThenGet | backend/src/controllers/taskController.ts:138-151 | after deleting an owned row, get by anyone answers NotFound and a second delete answers NotFound without changing the store |
| TaskProperties.UpdateIdempotent | backend/src/controllers/taskController.ts:108-117 | applying the same update twice gives the same response and store as applying it once |
| TaskProperties.UpdateWithoutTruthyFieldsIsNoop | backend/src/controllers/taskController.ts:110-116 | an update whose fields are all absent or falsy leaves the store unchanged and returns the row as it was |
| TaskProperties.DistinctIdsCount | backend/src/controllers/taskController.ts:39-46 | a listing without repeated ids has exactly as many rows as distinct ids |
| TaskProperties.UnfilteredListingIsOwnView | backend/src/controllers/taskController.ts:39-46 | with no filters the listing holds exactly the requester's rows: its ids are the requester's ids and its length is their number |
| TaskProperties.ListingHidesOthers | backend/src/controllers/taskController.ts:39-41 | a listing never holds another user's row, and is empty for a user who owns nothing |
| TaskProperties.Walkthrough | backend/src/controllers/taskController.ts:5-163 | create as u1 answers 201 with TODO and priority 1; u2's listing is empty; u1 gets the row, deletes it (200), and a second get answers 404 |

## Left out

- Express plumbing: `req`, `res`, the identity lookup through the request object and the JSON response bodies and messages. The requester id is an input and the HTTP outcome is the `Response` datatype.
- Database failures: the 500 paths (lines 25-31, 52-58, 81-87, 123-129, 156-162) and console logging. They are failures of the database library, not logic of the handlers.
- A create body without a title: the body's type requires a title, and the database rejects a missing one with a 500. The model takes `title` as a required string.
- Schema validation by the database: an unknown status value, a malformed due date, or a non-integer or out-of-range priority is rejected by the database with a 500. The model stores status and dueDate as the text sent, and takes priority as an unbounded integer.
- TaskController.CreateTask: answers Created for any integer priority, including values outside the database column's integer range, which the database would reject with a 500; a non-integer priority cannot be expressed.
- TaskController.UpdateTask: answers Ok for any truthy integer priority, including values outside the column's range, which the database would reject with a 500; a non-integer priority cannot be expressed.
- Parsing of the priority query: `Number(priority)` can produce NaN for non-numeric text (line 43), which is floating-point behaviour. The filter is taken already parsed as an optional integer.
- The check-then-act race between the ownership lookup and the write in update and delete: handlers are modelled as atomic steps on the store.
- Process bootstrap, port configuration and route mounting (`backend/src/index.ts`), and the authentication middleware that supplies the requester id. The middleware is not part of this model.
- TaskController.ListTasks: requires the store to be well keyed (every row stored under its own id), which the database's primary key guarantees.
