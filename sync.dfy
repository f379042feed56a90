/**
 * The store and the routes together. After a successful request the store
 * patches its list directly (a prepend, a replace by id, a filter by id)
 * instead of fetching it again; the lemmas here show that each patch yields
 * exactly the list a fresh GET /tasks would return, so a store that agrees
 * with the collection keeps agreeing with it, whatever the requests' outcomes.
 */
module Sync {
  import opened Wrappers
  import opened JsText
  import opened TaskSchema
  import opened Server
  import opened TaskStore

  /** Two collections hold the same task at every creation time below `n`. */
  ghost predicate SameBelow(r1: map<Id, Task>, r2: map<Id, Task>, mint: nat -> Id, n: nat) {
    forall m: nat :: m < n ==> CreatedAt(r1, mint, m) == CreatedAt(r2, mint, m)
  }

  /** The listing only looks at the tasks created before `n`. */
  lemma {:induction false} ListingAgrees(r1: map<Id, Task>, r2: map<Id, Task>, mint: nat -> Id, n: nat)
    requires SameBelow(r1, r2, mint, n)
    ensures NewestFirst(r1, mint, n) == NewestFirst(r2, mint, n)
  {
    if n > 0 {
      assert CreatedAt(r1, mint, n - 1) == CreatedAt(r2, mint, n - 1);
      ListingAgrees(r1, r2, mint, n - 1);
    }
  }

  /** Prepending the created task gives the listing of the collection that now holds it. */
  lemma PrependMatchesCreate(records: map<Id, Task>, mint: nat -> Id, clock: nat, task: Task)
    requires Injective(mint) && KeyedByCreation(records, mint) && CreatedBefore(records, clock)
    requires task.id == mint(clock) && task.createdAt == clock
    ensures [task] + NewestFirst(records, mint, clock) == NewestFirst(records[task.id := task], mint, clock + 1)
  {
    var after := records[task.id := task];
    assert CreatedAt(after, mint, clock) == Some(task);
    forall m: nat | m < clock ensures CreatedAt(records, mint, m) == CreatedAt(after, mint, m) {
      assert mint(m) != mint(clock);
    }
    ListingAgrees(records, after, mint, clock);
  }

  /** Replacing by id gives the listing of the collection in which that task was rewritten in place. */
  lemma {:induction false} ReplaceMatchesUpdate(records: map<Id, Task>, mint: nat -> Id, n: nat, id: Id, task: Task)
    requires KeyedByCreation(records, mint)
    requires id in records && task.id == id && task.createdAt == records[id].createdAt
    ensures ReplaceById(NewestFirst(records, mint, n), id, task) == NewestFirst(records[id := task], mint, n)
  {
    var after := records[id := task];
    if n > 0 {
      ReplaceMatchesUpdate(records, mint, n - 1, id, task);
      var rest := NewestFirst(records, mint, n - 1);
      match CreatedAt(records, mint, n - 1)
      case Some(t) =>
        assert t.id == mint(n - 1);
        assert CreatedAt(after, mint, n - 1) == Some(if t.id == id then task else t);
        var l := [t] + rest;
        assert l[0] == t && l[1..] == rest;
      case None =>
        assert CreatedAt(after, mint, n - 1).None?;
    }
  }

  /** Filtering out by id gives the listing of the collection without that task. */
  lemma {:induction false} RemoveMatchesDelete(records: map<Id, Task>, mint: nat -> Id, n: nat, id: Id)
    requires KeyedByCreation(records, mint)
    ensures RemoveById(NewestFirst(records, mint, n), id) == NewestFirst(records - {id}, mint, n)
  {
    if n > 0 {
      RemoveMatchesDelete(records, mint, n - 1, id);
      var rest := NewestFirst(records, mint, n - 1);
      match CreatedAt(records, mint, n - 1)
      case Some(t) =>
        RemoveByIdCons(t, rest, id);
        DeletedAt(records, mint, n - 1, id);
      case None =>
        DeletedAt(records, mint, n - 1, id);
    }
  }

  /** After removing `id`, the task created at `m` is the one before, unless it was the removed one. */
  lemma DeletedAt(records: map<Id, Task>, mint: nat -> Id, m: nat, id: Id)
    requires KeyedByCreation(records, mint)
    ensures CreatedAt(records - {id}, mint, m) ==
              match CreatedAt(records, mint, m)
              case Some(t) => if t.id == id then None else Some(t)
              case None => None
  {
  }

  /** The store shows exactly what GET /tasks would return now. */
  ghost predicate Synced(api: Api, store: Store)
    reads api, store
  {
    api.Valid() && store.tasks == NewestFirst(api.records, api.mint, api.clock)
  }

  /** What the awaited request yields for a response carrying one task: rejected unless the status is 2xx. */
  function TaskReply(resp: Response): Reply<Task> {
    if 200 <= resp.status < 300 && resp.body.One? then Resolved(resp.body.task) else Rejected
  }

  function ListReply(resp: Response): Reply<seq<Task>> {
    if 200 <= resp.status < 300 && resp.body.Many? then Resolved(resp.body.tasks) else Rejected
  }

  function DeleteReply(resp: Response): Reply<()> {
    if 200 <= resp.status < 300 then Resolved(()) else Rejected
  }

  /** Fetching: a successful GET brings the store in line with the collection. */
  method Fetch(api: Api, store: Store, storeFails: bool)
    requires api.Valid()
    modifies store
    ensures !storeFails ==> Synced(api, store) && store.error == None
    ensures storeFails ==> store.tasks == old(store.tasks) && store.error == Some(FetchError)
    ensures !store.loading
  {
    var resp := api.ListTasks(storeFails);
    store.FetchTasks(ListReply(resp));
  }

  /** Adding through the API: whatever happens, a synced store stays synced. */
  method Add(api: Api, store: Store, title: TitleInput, storeFails: bool) returns (ok: bool)
    requires Synced(api, store)
    modifies api, store
    ensures Synced(api, store)
    ensures ok <==> CheckTitle(title).Accept? && !storeFails && Build(Input(Some(title.s), None)).Ok?
    ensures ok ==> |store.tasks| == |old(store.tasks)| + 1 && store.tasks[1..] == old(store.tasks)
    ensures !ok ==> store.tasks == old(store.tasks)
  {
    ghost var records, clock, before := api.records, api.clock, store.tasks;
    var resp := api.CreateTask(title, storeFails);
    var reply := TaskReply(resp);
    if resp.status == 201 {
      assert reply == Resolved(resp.body.task);
      PrependMatchesCreate(records, api.mint, clock, resp.body.task);
      assert [resp.body.task] + before == NewestFirst(api.records, api.mint, api.clock);
    } else {
      assert reply == Rejected;
      assert api.records == records && api.clock == clock;
    }
    ok := store.AddTask(reply);
  }

  /** Toggling through the API: whatever happens, a synced store stays synced. */
  method Toggle(api: Api, store: Store, id: Id, completed: CompletedInput, storeFails: bool)
    requires Synced(api, store)
    modifies api, store
    ensures Synced(api, store)
    ensures |store.tasks| == |old(store.tasks)|
  {
    ghost var records, clock := api.records, api.clock;
    var resp := api.UpdateTask(id, completed, storeFails);
    store.UpdateTask(id, TaskReply(resp));
    if resp.status == 200 {
      ReplaceMatchesUpdate(records, api.mint, clock, id, resp.body.task);
      NewestFirstPastClock(api.records, api.mint, clock, clock + 1);
    }
  }

  /** Deleting through the API: whatever happens, a synced store stays synced. */
  method Remove(api: Api, store: Store, id: Id, storeFails: bool)
    requires Synced(api, store)
    modifies api, store
    ensures Synced(api, store)
  {
    ghost var records := api.records;
    var resp := api.DeleteTask(id, storeFails);
    store.DeleteTask(id, DeleteReply(resp));
    if resp.status == 200 {
      RemoveMatchesDelete(records, api.mint, api.clock, id);
    }
  }
}
