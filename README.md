# To-do list: task schema, task routes and client task store

A Dafny model of the three pieces of the to-do application that carry its logic:

- **The task schema** (`models/Task.js`): a task has a title that is required, trimmed and at
  most 200 characters long, a `completed` flag that defaults to false, and `createdAt` /
  `updatedAt` timestamps. Modelled as a cast-then-validate function (`TaskSchema.Build`) over
  JavaScript strings, which are sequences of UTF-16 code units (module `JsText`, which also
  models `String.prototype.trim`).
- **The task routes** (`server.js`): GET, POST, PATCH and DELETE on `/tasks`, as methods of the
  class `Server.Api` over a persisted collection `records: map<Id, Task>` and a `clock` that
  ticks at every create and every PATCH. Each handler checks its input in two tiers: the title guard or the
  ObjectId well-formedness check comes before any database access, and existence comes after.
  PATCH without `completed` marks the task done. Every outcome, including a thrown error, is
  mapped to a status code (`Server.StatusOf`). GET returns the collection newest first
  (`Server.NewestFirst`).
- **The client task store** (`src/store/taskStore.js`): a class `TaskStore.Store` with the
  fields `tasks`, `loading` and `error`. Its four actions apply the outcome of their request:
  fetch replaces the list, add prepends, update replaces by id, and delete filters by id. The
  `getStats` selector counts the list.

The module `Sync` joins the store to the routes. Its lemmas show that each direct patch the
store applies after a successful request (prepend, replace by id, filter by id) gives exactly
the list that GET `/tasks` would return next. So a store that agrees with the collection keeps
agreeing with it, whatever each request's outcome (`Sync.Add`, `Sync.Toggle`, `Sync.Remove`).

Parameters stand in for what the code does not compute itself:

- Each handler takes a flag `storeFails` for a database call that throws.
- Each store action takes a `Reply` (`Resolved(data)` or `Rejected`) for the awaited HTTP
  request.
- `mongoose.Types.ObjectId.isValid` is the uninterpreted `isValidId` of `Server.Api`.
- The ObjectId generator is `mint`: an injective map from the clock to ids that `isValidId`
  accepts.
- Timestamps are clock ticks.

Three behaviours of the code worth noting:

- A POST or PATCH whose database call throws answers 400, not a server-fault status.
- The client store does not check titles again.
- There is no configurable refetch-or-patch policy: the store always patches.

## Model

| member | source | states |
|---|---|---|
| `JsText.Trim` | models/Task.js:8 | the trimmed title starts and ends with a kept code unit, is no longer than the input, and is empty exactly when the input is all whitespace or line terminators |
| `JsText.TrimOfPadded` | models/Task.js:8 | trim is determined by its promise: a trimmed core padded with trimmable code units on both sides trims to that core |
| `JsText.TrimSplit` | models/Task.js:8 | trim only removes trimmable code units, and only from the two ends |
| `JsText.TrimIdempotent` | models/Task.js:8 | trimming an already trimmed title changes nothing |
| `TaskSchema.Build` | models/Task.js:5-14 | a new document is refused as "title required" exactly when the title is missing or blank. It is refused as "too long" exactly when the trimmed title exceeds 200 code units. Otherwise it is accepted with the trimmed title, and `completed` is false unless supplied |
| `TaskSchema.BuildIdempotent` | models/Task.js:5-14 | normalising is idempotent: an accepted document fed back in is accepted unchanged |
| `TaskSchema.GoodTitleAccepted` | models/Task.js:5-10 | every title the schema can store passes the schema again unchanged |
| `Server.CheckTitle` | server.js:38-42 | the POST guard rejects a missing, falsy or blank title, throws on a truthy non-string, and accepts only a string that is not blank |
| `Server.PatchedCompleted` | server.js:65 | the value PATCH writes: the supplied boolean, true when `completed` is omitted, nothing when the cast throws |
| `Server.StatusOf` | server.js:26-98 | not found is 404; a throwing list or delete is 500; every other error is 400 |
| `Server.NewestFirst` | server.js:28 | the listing holds only tasks created before the bound |
| `Server.NewestFirstSorted` | server.js:28 | the listing is ordered by strictly decreasing `createdAt` |
| `Server.NewestFirstHolds` | server.js:28 | the listing up to a bound holds exactly the stored tasks created before it, each once |
| `Server.ListingIsComplete` | server.js:28-29 | at the clock, the listing holds every stored task and nothing else, and its length is the collection's size |
| `Server.NewestFirstPastClock` | server.js:28 | listing past the clock adds nothing |
| `Server.CreateKeepsConsistent` | server.js:44-45 | storing a new task under the id minted at the clock keeps the collection's invariant: ids fresh and well-formed, titles valid, timestamps before the clock |
| `Server.UpdateKeepsConsistent` | server.js:63-67 | rewriting `completed` and `updatedAt` keeps the collection's invariant |
| `Server.DeleteKeepsConsistent` | server.js:88 | removing a task keeps the collection's invariant |
| `Server.Api.ListTasks` | server.js:26-33 | GET answers 500 when the query throws. Otherwise it answers 200 with every stored task, each once, newest first |
| `Server.Api.CreateTask` | server.js:36-51 | POST with a missing or blank title answers 400 and stores nothing. An accepted title adds exactly one task with a fresh id, the trimmed title, `completed` false and both timestamps at the clock, leaves the others unchanged and answers 201 with it. A schema refusal or a failing save answers 400 and stores nothing |
| `Server.Api.UpdateTask` | server.js:54-77 | PATCH checks a malformed id first: 400, collection untouched. A cast or database error is 400. An absent id is 404 with nothing changed. Otherwise only that task changes: `completed` becomes the supplied value or true, and `updatedAt` strictly increases. The answer is 200 with the updated task |
| `Server.Api.DeleteTask` | server.js:80-98 | DELETE checks a malformed id first: 400, collection untouched. A database error is 500. An absent id is 404 with nothing changed. Otherwise exactly that task is removed and the answer is 200 with the message and the removed task |
| `Server.GoodTitlePosts` | server.js:40-45 | a title the schema can store passes the POST guard and the schema unchanged, with `completed` defaulting to false |
| `Server.Lifecycle` | server.js:26-98 | create, list, toggle, delete: the new task is listed alone and not completed, a PATCH without `completed` marks it done with a later `updatedAt`, and after the delete the list is empty |
| `TaskStore.ReplaceById` | src/store/taskStore.js:48-50 | the list keeps its length; every task with the id becomes the returned record; every other task stays where it was |
| `TaskStore.ReplaceAbsentId` | src/store/taskStore.js:48-50 | replacing an id no task has changes nothing |
| `TaskStore.RemoveById` | src/store/taskStore.js:63 | the list shrinks by exactly the number of tasks with that id |
| `TaskStore.RemoveByIdMembers` | src/store/taskStore.js:63 | exactly the tasks with that id are removed |
| `TaskStore.RemoveByIdAppend` | src/store/taskStore.js:63 | the survivors keep their relative order: filtering a concatenation concatenates the filtered parts |
| `TaskStore.RemoveAbsentId` | src/store/taskStore.js:63 | removing an id no task has changes nothing |
| `TaskStore.CompletedPlusPending` | src/store/taskStore.js:74-78 | completed and pending counts add up to the list length |
| `TaskStore.NoneCompleted` | src/store/taskStore.js:76 | the completed count is zero exactly when no task is completed |
| `TaskStore.StatsOf` | src/store/taskStore.js:72-78 | `total` is the list length; `completed` is the number of positions holding a done task and `pending` the number holding a task not done; they add up to `total`, and `completed` is zero exactly when no task is done |
| `TaskStore.CountCompletedAppend` | src/store/taskStore.js:76 | the completed count of a concatenation is the sum of the parts' counts |
| `TaskStore.CountPendingAppend` | src/store/taskStore.js:77 | the pending count of a concatenation is the sum of the parts' counts |
| `TaskStore.CountCompletedPositions` | src/store/taskStore.js:76 | the completed count of a prefix is the number of its positions holding a done task |
| `TaskStore.CountPendingPositions` | src/store/taskStore.js:77 | the pending count of a prefix is the number of its positions holding a task not done |
| `TaskStore.Store.constructor` | src/store/taskStore.js:10-12 | the store starts with no tasks, not loading and with no error |
| `TaskStore.Store.FetchTasks` | src/store/taskStore.js:15-26 | loading always ends false. On success the list is replaced by the response and the error is null. On failure the list is kept and the error is set |
| `TaskStore.Store.AddTask` | src/store/taskStore.js:29-41 | on success the new task is at index 0, the previous list follows it in order, the error is cleared and the action returns true. On failure the list is unchanged, the error is set and it returns false. `loading` is untouched |
| `TaskStore.Store.UpdateTask` | src/store/taskStore.js:44-56 | on success the list becomes the replace-by-id of the old one and the error is cleared. On failure the list is unchanged and the error is set. `loading` is untouched |
| `TaskStore.Store.DeleteTask` | src/store/taskStore.js:59-69 | on success the list becomes the filter-by-id of the old one and the error is cleared. On failure the list is unchanged and the error is set. `loading` is untouched |
| `TaskStore.Store.GetStats` | src/store/taskStore.js:72-79 | the selector gives the stats of the current list: its length, the number of done tasks and the number of tasks not done |
| `Sync.ListingAgrees` | server.js:28 | the listing depends only on the tasks created before its bound |
| `Sync.PrependMatchesCreate` | src/store/taskStore.js:32-35 | prepending the created task gives the newest-first listing of the collection that now holds it |
| `Sync.ReplaceMatchesUpdate` | src/store/taskStore.js:47-52 | replacing by id gives the listing of the collection where that task was rewritten in place |
| `Sync.RemoveMatchesDelete` | src/store/taskStore.js:62-65 | filtering out by id gives the listing of the collection without that task |
| `Sync.Fetch` | src/store/taskStore.js:15-26 | a successful GET brings the store in line with the collection; a failing one keeps the list and sets the error |
| `Sync.Add` | src/store/taskStore.js:29-41 | adding through POST keeps store and collection in agreement. The store grows by one exactly when the title is accepted and saved |
| `Sync.Toggle` | src/store/taskStore.js:44-56 | toggling through PATCH keeps store and collection in agreement and the list length |
| `Sync.Remove` | src/store/taskStore.js:59-69 | deleting through DELETE keeps store and collection in agreement |

## Left out

- Express and mongoose set-up, `cors`, `express.json`, `dotenv`, the port and connection string, `app.listen`, and the liveness route `GET /` (server.js:1-21, 100-108): configuration and wiring, no task logic.
- The two React front ends (`src/App.react-query.jsx`, `src/App.zustand.jsx`): rendering, forms and `window.confirm`. Their blank-title guard, toggle negation and stats duplicate logic the model already covers. The react-query variant's refetch after a mutation relies on the library's cache invalidation, which is not visible in the source. `Sync` instead proves that the store's patch equals a refetch.
- HTTP transport, JSON and timeouts: each request is an input outcome (`Reply`, `storeFails`). The request payloads (the title of `addTask`, the `completed` of `updateTask`) go to the server, so they are parameters of the `Sync` methods, not of the store's actions.
- The intermediate `loading = true` state of `fetchTasks` is assigned but cannot be observed: requests in the model complete before the next action starts, so there is no interleaving of overlapping requests on the client or the server.
- The database itself: the collection is a map. Sorting by `createdAt` is the order `NewestFirst` promises. `ObjectId.isValid` is uninterpreted. The id generator is a parameter required to be injective and to yield well-formed ids.
- Wall-clock time: timestamps are ticks of one counter that advances at every create and every PATCH, so only their order is modelled.
- Server.CompletedInput: JSON values other than booleans in a PATCH body (`null`, `"true"`, `1`) are not modelled individually. The Boolean cast either turns them into a boolean (`Given`) or throws (`Uncastable`). A `null` stored as `completed` is not modelled.
- Server.TitleInput: non-string JSON titles are grouped by truthiness. Falsy ones fail the guard; truthy ones make `trim` throw.
- Error message texts are kept for the store and for a successful delete. The handlers' error bodies are modelled by their kind only, and the `error.message` text of a thrown error is left out.
- Server.Api.UpdateTask / Server.Api.DeleteTask: ids are compared as exact text. The database looks up the id cast to an ObjectId, which ignores the case of hex letters, so a case variant of a stored id (found by the code, 404 in the model) is not modelled.
- Server.NewestFirst: its own contract only bounds creation times. Ordering and completeness are stated by `Server.NewestFirstSorted`, `Server.NewestFirstHolds` and `Server.ListingIsComplete`.
