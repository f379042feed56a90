/**
 * The four task routes: list, create, toggle and delete, over a persisted
 * collection. Requests are validated in two tiers (syntax first, existence
 * second), and every outcome, including a thrown error, is mapped to a status
 * code. A failing database call is an input flag of each handler.
 */
module Server {
  import opened Wrappers
  import opened JsText
  import opened TaskSchema

  /** The `title` of a POST body, by how JavaScript treats it. */
  datatype TitleInput =
    | Absent                // no `title` key: undefined
    | Falsy                 // null, false, 0 or NaN
    | Text(s: JsString)     // a string (the empty string is falsy too)
    | OtherTruthy           // true, a non-zero number, an object or an array: it has no `trim`

  /** The `completed` of a PATCH body, by what the Boolean cast of the update makes of it. */
  datatype CompletedInput =
    | Omitted               // undefined
    | Given(b: bool)        // a value the cast turns into this boolean
    | Uncastable            // a value the cast rejects with an error

  /** Every reason a handler gives for not succeeding. */
  datatype ErrorKind =
    | TitleMissing          // POST: missing or blank title
    | InvalidId             // PATCH, DELETE: the id is not a well-formed ObjectId
    | NotFound              // PATCH, DELETE: no task has that id
    | ListFailed            // GET: the query threw
    | CreateFailed          // POST: construction, validation or saving threw
    | UpdateFailed          // PATCH: casting or the update threw
    | DeleteFailed          // DELETE: the removal threw

  /** The JSON sent back. */
  datatype Body =
    | One(task: Task)
    | Many(tasks: seq<Task>)
    | Removed(message: string, task: Task)
    | Error(kind: ErrorKind)

  datatype Response = Response(status: nat, body: Body)

  /** The message that accompanies a deleted task. */
  const RemovedMessage: string := "Tarefa removida com sucesso"

  /** The verdict of the POST handler's title guard. */
  datatype TitleCheck = Accept(title: JsString) | Reject | Throw

  /**
   * `!title || title.trim() === ''`: a missing, falsy or blank title is
   * rejected; a truthy value that is not a string makes `trim` throw.
   */
  function CheckTitle(title: TitleInput): (c: TitleCheck)
    ensures c.Reject? <==> title.Absent? || title.Falsy? || (title.Text? && AllTrimmable(title.s))
    ensures c.Throw? <==> title.OtherTruthy?
    ensures c.Accept? ==> title == Text(c.title) && Trim(c.title) != []
  {
    match title
    case Absent => Reject
    case Falsy => Reject
    case Text(s) => if s == [] || Trim(s) == [] then Reject else Accept(s)
    case OtherTruthy => Throw
  }

  /** `completed !== undefined ? completed : true`, after the Boolean cast; `None` when the cast throws. */
  function PatchedCompleted(completed: CompletedInput): (v: Option<bool>)
    ensures v.None? <==> completed.Uncastable?
    ensures v == Some(true) <==> completed.Omitted? || completed == Given(true)
    ensures v == Some(false) <==> completed == Given(false)
  {
    match completed
    case Omitted => Some(true)
    case Given(b) => Some(b)
    case Uncastable => None
  }

  /**
   * The status code each handler sends with each kind of error: 404 for a
   * missing task, 500 when listing or deleting threw, 400 for everything else
   * (invalid input, and creating or updating that threw).
   */
  function StatusOf(kind: ErrorKind): (code: nat)
    ensures code == 404 <==> kind == NotFound
    ensures code == 500 <==> kind == ListFailed || kind == DeleteFailed
    ensures code == 400 <==> kind in {TitleMissing, InvalidId, CreateFailed, UpdateFailed}
  {
    match kind
    case NotFound => 404
    case ListFailed => 500
    case DeleteFailed => 500
    case _ => 400
  }

  function ErrorResponse(kind: ErrorKind): Response {
    Response(StatusOf(kind), Error(kind))
  }

  /** The task created at time `n`, if the collection holds it: the key minted at `n` names it. */
  function CreatedAt(records: map<Id, Task>, mint: nat -> Id, n: nat): Option<Task> {
    var k := mint(n);
    if k in records && records[k].createdAt == n then Some(records[k]) else None
  }

  /**
   * The tasks created before time `n`, newest first: what sorting the
   * collection by descending `createdAt` yields once `n` is past every
   * creation time.
   */
  function NewestFirst(records: map<Id, Task>, mint: nat -> Id, n: nat): (r: seq<Task>)
    ensures forall i :: 0 <= i < |r| ==> r[i].createdAt < n
  {
    if n == 0 then []
    else
      match CreatedAt(records, mint, n - 1)
      case Some(t) => [t] + NewestFirst(records, mint, n - 1)
      case None => NewestFirst(records, mint, n - 1)
  }

  /** `tasks` is ordered by strictly decreasing creation time. */
  ghost predicate NewestToOldest(tasks: seq<Task>) {
    forall i, j :: 0 <= i < j < |tasks| ==> tasks[i].createdAt > tasks[j].createdAt
  }

  /** The listing is ordered by strictly decreasing creation time. */
  lemma {:induction false} NewestFirstSorted(records: map<Id, Task>, mint: nat -> Id, n: nat)
    ensures NewestToOldest(NewestFirst(records, mint, n))
  {
    if n > 0 {
      NewestFirstSorted(records, mint, n - 1);
      var rest := NewestFirst(records, mint, n - 1);
      match CreatedAt(records, mint, n - 1)
      case Some(t) =>
        var r := [t] + rest;
        assert r == NewestFirst(records, mint, n);
        assert t.createdAt == n - 1;
        forall i, j | 0 <= i < j < |r| ensures r[i].createdAt > r[j].createdAt {
          assert r[j] == rest[j - 1] && rest[j - 1].createdAt < n - 1;
          if i == 0 {
            assert r[i] == t;
          } else {
            assert r[i] == rest[i - 1];
          }
        }
      case None =>
        assert rest == NewestFirst(records, mint, n);
    }
  }

  /** Each key names its own task, and the key is the one minted at the task's creation time. */
  ghost predicate KeyedByCreation(records: map<Id, Task>, mint: nat -> Id) {
    forall k | k in records :: records[k].id == k && mint(records[k].createdAt) == k
  }

  /** Every task was created before `clock`. */
  ghost predicate CreatedBefore(records: map<Id, Task>, clock: nat) {
    forall k | k in records :: records[k].createdAt < clock
  }

  /** The id generator never repeats an id. */
  ghost predicate Injective(mint: nat -> Id) {
    forall a: nat, b: nat :: mint(a) == mint(b) ==> a == b
  }

  /** The ids of the tasks created before `n`. */
  ghost function KeysBelow(records: map<Id, Task>, n: nat): set<Id> {
    set k | k in records && records[k].createdAt < n
  }

  /**
   * The ordered listing holds exactly the tasks created before `n`, each once.
   */
  lemma {:induction false} NewestFirstHolds(records: map<Id, Task>, mint: nat -> Id, n: nat)
    requires KeyedByCreation(records, mint)
    ensures forall t :: t in NewestFirst(records, mint, n) <==> t in records.Values && t.createdAt < n
    ensures |NewestFirst(records, mint, n)| == |KeysBelow(records, n)|
  {
    if n > 0 {
      NewestFirstHolds(records, mint, n - 1);
      var k := mint(n - 1);
      var rest := NewestFirst(records, mint, n - 1);
      forall t | t in records.Values && t.createdAt == n - 1
        ensures CreatedAt(records, mint, n - 1) == Some(t)
      {
        var j :| j in records && records[j] == t;
        assert k == j;
      }
      match CreatedAt(records, mint, n - 1)
      case Some(t) =>
        assert KeysBelow(records, n) == KeysBelow(records, n - 1) + {k};
        assert k !in KeysBelow(records, n - 1);
      case None =>
        assert KeysBelow(records, n) == KeysBelow(records, n - 1) by {
          forall j | j in records && records[j].createdAt == n - 1 ensures false {
          }
        }
    }
  }

  /** Listing at the clock returns every stored task, each once. */
  lemma ListingIsComplete(records: map<Id, Task>, mint: nat -> Id, clock: nat)
    requires KeyedByCreation(records, mint) && CreatedBefore(records, clock)
    ensures forall t :: t in NewestFirst(records, mint, clock) <==> t in records.Values
    ensures |NewestFirst(records, mint, clock)| == |records|
  {
    NewestFirstHolds(records, mint, clock);
    assert KeysBelow(records, clock) == records.Keys;
    forall t | t in records.Values ensures t.createdAt < clock {
      var j :| j in records && records[j] == t;
    }
  }

  /** Looking past the clock adds nothing: no task was created at or after it. */
  lemma {:induction false} NewestFirstPastClock(records: map<Id, Task>, mint: nat -> Id, clock: nat, n: nat)
    requires CreatedBefore(records, clock) && clock <= n
    ensures NewestFirst(records, mint, n) == NewestFirst(records, mint, clock)
    decreases n
  {
    if n > clock {
      assert CreatedAt(records, mint, n - 1).None?;
      NewestFirstPastClock(records, mint, clock, n - 1);
    }
  }

  /**
   * The invariant of the persisted collection: ids come from an injective
   * generator that yields only well-formed ids, each key names the task created
   * at the time it was minted, every task was created and last written before
   * the clock, and every stored title satisfies the schema.
   */
  ghost predicate Consistent(records: map<Id, Task>, clock: nat, isValidId: Id -> bool, mint: nat -> Id) {
    && Injective(mint)
    && (forall n: nat :: isValidId(mint(n)))
    && KeyedByCreation(records, mint)
    && CreatedBefore(records, clock)
    && (forall k | k in records ::
          isValidId(k) && GoodTitle(records[k].title) && records[k].createdAt <= records[k].updatedAt < clock)
  }

  /** Storing a task under the id minted at the clock, stamped with the clock, keeps the invariant once the clock ticks. */
  lemma CreateKeepsConsistent(records: map<Id, Task>, clock: nat, isValidId: Id -> bool, mint: nat -> Id, task: Task)
    requires Consistent(records, clock, isValidId, mint)
    requires task.id == mint(clock) && task.createdAt == clock && task.updatedAt == clock
    requires GoodTitle(task.title)
    ensures task.id !in records
    ensures Consistent(records[task.id := task], clock + 1, isValidId, mint)
  {
  }

  /** Rewriting a task's `completed` and stamping it with the clock keeps the invariant once the clock ticks. */
  lemma UpdateKeepsConsistent(records: map<Id, Task>, clock: nat, isValidId: Id -> bool, mint: nat -> Id, id: Id, value: bool)
    requires Consistent(records, clock, isValidId, mint)
    requires id in records
    ensures Consistent(records[id := records[id].(completed := value, updatedAt := clock)], clock + 1, isValidId, mint)
  {
  }

  /** Removing a task keeps the invariant. */
  lemma DeleteKeepsConsistent(records: map<Id, Task>, clock: nat, isValidId: Id -> bool, mint: nat -> Id, id: Id)
    requires Consistent(records, clock, isValidId, mint)
    ensures Consistent(records - {id}, clock, isValidId, mint)
  {
  }

  /**
   * The persisted collection behind the routes. `isValidId` is
   * `ObjectId.isValid`, left uninterpreted; `mint` is the id generator, which
   * names the task created at each tick of the clock. The clock ticks at every
   * create and every PATCH, and gives the timestamps.
   */
  class Api {
    var records: map<Id, Task>
    var clock: nat
    const isValidId: Id -> bool
    const mint: nat -> Id

    ghost predicate Valid()
      reads this
    {
      Consistent(records, clock, isValidId, mint)
    }

    constructor (isValidId: Id -> bool, mint: nat -> Id)
      requires Injective(mint)
      requires forall n: nat :: isValidId(mint(n))
      ensures Valid()
      ensures this.isValidId == isValidId && this.mint == mint
      ensures records == map[] && clock == 0
    {
      this.isValidId := isValidId;
      this.mint := mint;
      records := map[];
      clock := 0;
    }

    /** GET /tasks: every task, newest first; 500 when the query throws. */
    method ListTasks(storeFails: bool) returns (resp: Response)
      requires Valid()
      ensures storeFails ==> resp == ErrorResponse(ListFailed)
      ensures !storeFails ==> resp == Response(200, Many(NewestFirst(records, mint, clock)))
      ensures !storeFails ==> |resp.body.tasks| == |records|
      ensures !storeFails ==> forall t :: t in resp.body.tasks <==> t in records.Values
      ensures !storeFails ==> NewestToOldest(resp.body.tasks)
    {
      if storeFails {
        return ErrorResponse(ListFailed);
      }
      ListingIsComplete(records, mint, clock);
      NewestFirstSorted(records, mint, clock);
      resp := Response(200, Many(NewestFirst(records, mint, clock)));
    }

    /**
     * POST /tasks: a blank or missing title is refused with 400 before anything
     * is stored; an accepted title yields one new task with a fresh id, the
     * trimmed title, `completed` false and both timestamps at the clock, sent
     * back with 201. A title the schema refuses, or a failing save, is 400.
     */
    method CreateTask(title: TitleInput, storeFails: bool) returns (resp: Response)
      requires Valid()
      modifies this
      ensures Valid()
      ensures CheckTitle(title).Reject? ==> resp == ErrorResponse(TitleMissing)
      ensures CheckTitle(title).Throw? ==> resp == ErrorResponse(CreateFailed)
      ensures resp.status == 201 <==>
                CheckTitle(title).Accept? && !storeFails && Build(Input(Some(title.s), None)).Ok?
      ensures resp.status != 201 ==> resp.status == 400 && records == old(records) && clock == old(clock)
      ensures resp.status == 201 ==>
                && resp.body.One?
                && resp.body.task == Task(old(mint(clock)), Trim(title.s), false, old(clock), old(clock))
                && resp.body.task.id !in old(records)
                && records == old(records)[resp.body.task.id := resp.body.task]
                && |records| == |old(records)| + 1
                && clock == old(clock) + 1
    {
      match CheckTitle(title)
      case Reject =>
        return ErrorResponse(TitleMissing);
      case Throw =>
        return ErrorResponse(CreateFailed);
      case Accept(s) =>
        match Build(Input(Some(s), None))
        case Err(_) =>
          return ErrorResponse(CreateFailed);
        case Ok(fields) =>
          if storeFails {
            return ErrorResponse(CreateFailed);
          }
          var task := Task(mint(clock), fields.title, fields.completed, clock, clock);
          CreateKeepsConsistent(records, clock, isValidId, mint, task);
          records := records[task.id := task];
          clock := clock + 1;
          resp := Response(201, One(task));
    }

    /**
     * PATCH /tasks/:id: a malformed id is refused with 400 before the
     * collection is read; otherwise the task's `completed` becomes the supplied
     * value, or true when none is supplied, and `updatedAt` moves to the clock.
     * A missing task is 404; a cast or database error is 400.
     */
    method UpdateTask(id: Id, completed: CompletedInput, storeFails: bool) returns (resp: Response)
      requires Valid()
      modifies this
      ensures Valid()
      ensures !isValidId(id) ==> resp == ErrorResponse(InvalidId)
      ensures isValidId(id) && (completed.Uncastable? || storeFails) ==> resp == ErrorResponse(UpdateFailed)
      ensures isValidId(id) && !completed.Uncastable? && !storeFails && id !in old(records) ==>
                resp == ErrorResponse(NotFound)
      ensures resp.status == 200 <==>
                isValidId(id) && !completed.Uncastable? && !storeFails && id in old(records)
      ensures resp.status != 200 ==> records == old(records) && clock == old(clock)
      ensures resp.status == 200 ==>
                var was := old(records)[id];
                var now := was.(completed := PatchedCompleted(completed).value, updatedAt := old(clock));
                && records == old(records)[id := now]
                && resp == Response(200, One(now))
                && was.updatedAt < now.updatedAt
                && clock == old(clock) + 1
    {
      if !isValidId(id) {
        return ErrorResponse(InvalidId);
      }
      match PatchedCompleted(completed)
      case None =>
        return ErrorResponse(UpdateFailed);
      case Some(value) =>
        if storeFails {
          return ErrorResponse(UpdateFailed);
        }
        if id !in records {
          return ErrorResponse(NotFound);
        }
        var task := records[id].(completed := value, updatedAt := clock);
        UpdateKeepsConsistent(records, clock, isValidId, mint, id, value);
        records := records[id := task];
        clock := clock + 1;
        resp := Response(200, One(task));
    }

    /**
     * DELETE /tasks/:id: a malformed id is refused with 400 before the
     * collection is read; a missing task is 404, a failing removal 500;
     * otherwise exactly that task is removed and sent back with 200.
     */
    method DeleteTask(id: Id, storeFails: bool) returns (resp: Response)
      requires Valid()
      modifies this
      ensures Valid()
      ensures !isValidId(id) ==> resp == ErrorResponse(InvalidId)
      ensures isValidId(id) && storeFails ==> resp == ErrorResponse(DeleteFailed)
      ensures isValidId(id) && !storeFails && id !in old(records) ==> resp == ErrorResponse(NotFound)
      ensures resp.status == 200 <==> isValidId(id) && !storeFails && id in old(records)
      ensures resp.status != 200 ==> records == old(records)
      ensures resp.status == 200 ==>
                && resp == Response(200, Removed(RemovedMessage, old(records)[id]))
                && records == old(records) - {id}
                && |records| == |old(records)| - 1
      ensures clock == old(clock)
    {
      if !isValidId(id) {
        return ErrorResponse(InvalidId);
      }
      if storeFails {
        return ErrorResponse(DeleteFailed);
      }
      if id !in records {
        return ErrorResponse(NotFound);
      }
      var task := records[id];
      DeleteKeepsConsistent(records, clock, isValidId, mint, id);
      records := records - {id};
      resp := Response(200, Removed(RemovedMessage, task));
    }
  }

  /** A title the schema can store passes the POST guard and the schema as it is. */
  lemma GoodTitlePosts(title: JsString)
    requires GoodTitle(title)
    ensures CheckTitle(Text(title)) == Accept(title)
    ensures Build(Input(Some(title), None)) == Ok(Fields(title, false))
  {
    assert title[0] in title;
    GoodTitleAccepted(title, false);
  }

  /**
   * A task's life through the routes: created, listed as the only task and not
   * completed, marked done by a PATCH without `completed`, deleted, and the
   * list is empty again.
   */
  method Lifecycle(api: Api, title: JsString) returns (created: Task, shown: seq<Task>, toggled: Task, left: seq<Task>)
    requires api.Valid() && api.records == map[]
    requires GoodTitle(title)
    modifies api
    ensures created.title == title && !created.completed
    ensures shown == [created]
    ensures toggled.id == created.id && toggled.completed && toggled.updatedAt > created.updatedAt
    ensures left == [] && api.records == map[]
  {
    GoodTitlePosts(title);
    var posted := api.CreateTask(Text(title), false);
    assert posted.status == 201;
    created := posted.body.task;
    var listed := api.ListTasks(false);
    shown := listed.body.tasks;
    assert api.records.Values == {created};
    assert |shown| == 1 && shown[0] in api.records.Values;
    assert api.isValidId(created.id);
    var patched := api.UpdateTask(created.id, Omitted, false);
    assert patched.status == 200;
    toggled := patched.body.task;
    var removed := api.DeleteTask(created.id, false);
    assert removed.status == 200;
    var after := api.ListTasks(false);
    left := after.body.tasks;
  }
}
