/**
 * The client-side task store: the task list, a loading flag and the current
 * error message, changed by four actions that each make one request and apply
 * its outcome, and a selector that counts the list.
 */
module TaskStore {
  import opened Wrappers
  import opened TaskSchema

  /** How one HTTP request ended, as the awaited promise reports it. */
  datatype Reply<+T> = Resolved(data: T) | Rejected

  /** The counts the stats selector returns. */
  datatype Stats = Stats(total: nat, completed: nat, pending: nat)

  const FetchError: string := "Erro ao carregar tarefas"
  const AddError: string := "Erro ao adicionar tarefa"
  const UpdateError: string := "Erro ao atualizar tarefa"
  const DeleteError: string := "Erro ao remover tarefa"

  /** `tasks.map(task => task._id === id ? t : task)`. */
  function ReplaceById(tasks: seq<Task>, id: Id, t: Task): (r: seq<Task>)
    ensures |r| == |tasks|
    ensures forall i :: 0 <= i < |tasks| && tasks[i].id != id ==> r[i] == tasks[i]
    ensures forall i :: 0 <= i < |tasks| && tasks[i].id == id ==> r[i] == t
  {
    if tasks == [] then []
    else [if tasks[0].id == id then t else tasks[0]] + ReplaceById(tasks[1..], id, t)
  }

  /** How many tasks in `tasks` have the id `id`. */
  function CountId(tasks: seq<Task>, id: Id): (n: nat)
    ensures n <= |tasks|
  {
    if tasks == [] then 0
    else (if tasks[0].id == id then 1 else 0) + CountId(tasks[1..], id)
  }

  /** `tasks.filter(task => task._id !== id)`. */
  function RemoveById(tasks: seq<Task>, id: Id): (r: seq<Task>)
    ensures |r| == |tasks| - CountId(tasks, id)
  {
    if tasks == [] then []
    else if tasks[0].id == id then RemoveById(tasks[1..], id)
    else [tasks[0]] + RemoveById(tasks[1..], id)
  }

  /** Removing by id drops exactly the tasks with that id. */
  lemma {:induction false} RemoveByIdMembers(tasks: seq<Task>, id: Id)
    ensures forall t :: t in RemoveById(tasks, id) <==> t in tasks && t.id != id
    decreases |tasks|
  {
    if tasks != [] {
      RemoveByIdMembers(tasks[1..], id);
      assert forall t :: t in tasks <==> t == tasks[0] || t in tasks[1..];
    }
  }

  /** Removing by id keeps the survivors in order: it works piece by piece over a concatenation. */
  lemma {:induction false} RemoveByIdAppend(a: seq<Task>, b: seq<Task>, id: Id)
    ensures RemoveById(a + b, id) == RemoveById(a, id) + RemoveById(b, id)
    decreases |a|
  {
    if a == [] {
      assert a + b == b;
    } else {
      assert (a + b)[0] == a[0];
      assert (a + b)[1..] == a[1..] + b;
      RemoveByIdAppend(a[1..], b, id);
    }
  }

  /** Removing by id from a list with a first task decides that task and goes on with the rest. */
  lemma RemoveByIdCons(t: Task, rest: seq<Task>, id: Id)
    ensures RemoveById([t] + rest, id) == if t.id == id then RemoveById(rest, id) else [t] + RemoveById(rest, id)
  {
    var l := [t] + rest;
    assert l[0] == t && l[1..] == rest;
  }

  /** Removing an id no task has changes nothing. */
  lemma {:induction false} RemoveAbsentId(tasks: seq<Task>, id: Id)
    requires forall i :: 0 <= i < |tasks| ==> tasks[i].id != id
    ensures RemoveById(tasks, id) == tasks
    decreases |tasks|
  {
    if tasks != [] {
      RemoveAbsentId(tasks[1..], id);
      assert [tasks[0]] + tasks[1..] == tasks;
    }
  }

  /** Replacing by an id no task has changes nothing. */
  lemma {:induction false} ReplaceAbsentId(tasks: seq<Task>, id: Id, t: Task)
    requires forall i :: 0 <= i < |tasks| ==> tasks[i].id != id
    ensures ReplaceById(tasks, id, t) == tasks
    decreases |tasks|
  {
    if tasks != [] {
      ReplaceAbsentId(tasks[1..], id, t);
      assert [tasks[0]] + tasks[1..] == tasks;
    }
  }

  /** `tasks.filter(t => t.completed).length`. */
  function CountCompleted(tasks: seq<Task>): (n: nat)
    ensures n <= |tasks|
  {
    if tasks == [] then 0
    else (if tasks[0].completed then 1 else 0) + CountCompleted(tasks[1..])
  }

  /** `tasks.filter(t => !t.completed).length`. */
  function CountPending(tasks: seq<Task>): (n: nat)
    ensures n <= |tasks|
  {
    if tasks == [] then 0
    else (if tasks[0].completed then 0 else 1) + CountPending(tasks[1..])
  }

  /** Every task is either completed or pending. */
  lemma {:induction false} CompletedPlusPending(tasks: seq<Task>)
    ensures CountCompleted(tasks) + CountPending(tasks) == |tasks|
    decreases |tasks|
  {
    if tasks != [] {
      CompletedPlusPending(tasks[1..]);
    }
  }

  /** Counting completed tasks distributes over concatenation. */
  lemma {:induction false} CountCompletedAppend(a: seq<Task>, b: seq<Task>)
    ensures CountCompleted(a + b) == CountCompleted(a) + CountCompleted(b)
    decreases |a|
  {
    if a == [] {
      assert a + b == b;
    } else {
      assert (a + b)[0] == a[0];
      assert (a + b)[1..] == a[1..] + b;
      CountCompletedAppend(a[1..], b);
    }
  }

  /** Counting pending tasks distributes over concatenation. */
  lemma {:induction false} CountPendingAppend(a: seq<Task>, b: seq<Task>)
    ensures CountPending(a + b) == CountPending(a) + CountPending(b)
    decreases |a|
  {
    if a == [] {
      assert a + b == b;
    } else {
      assert (a + b)[0] == a[0];
      assert (a + b)[1..] == a[1..] + b;
      CountPendingAppend(a[1..], b);
    }
  }

  /** The completed count of the first `n` tasks is the number of positions below `n` holding a completed task. */
  lemma {:induction false} CountCompletedPositions(tasks: seq<Task>, n: nat)
    requires n <= |tasks|
    ensures CountCompleted(tasks[..n]) == |set i | 0 <= i < n && tasks[i].completed|
    decreases n
  {
    if n > 0 {
      CountCompletedPositions(tasks, n - 1);
      assert tasks[..n] == tasks[..n - 1] + [tasks[n - 1]];
      CountCompletedAppend(tasks[..n - 1], [tasks[n - 1]]);
      var below := set i | 0 <= i < n - 1 && tasks[i].completed;
      var upTo := set i | 0 <= i < n && tasks[i].completed;
      if tasks[n - 1].completed {
        assert upTo == below + {n - 1};
      } else {
        assert upTo == below;
      }
    }
  }

  /** The pending count of the first `n` tasks is the number of positions below `n` holding a task not completed. */
  lemma {:induction false} CountPendingPositions(tasks: seq<Task>, n: nat)
    requires n <= |tasks|
    ensures CountPending(tasks[..n]) == |set i | 0 <= i < n && !tasks[i].completed|
    decreases n
  {
    if n > 0 {
      CountPendingPositions(tasks, n - 1);
      assert tasks[..n] == tasks[..n - 1] + [tasks[n - 1]];
      CountPendingAppend(tasks[..n - 1], [tasks[n - 1]]);
      var below := set i | 0 <= i < n - 1 && !tasks[i].completed;
      var upTo := set i | 0 <= i < n && !tasks[i].completed;
      if !tasks[n - 1].completed {
        assert upTo == below + {n - 1};
      } else {
        assert upTo == below;
      }
    }
  }

  /**
   * The stats of a list: its length, the number of positions holding a completed
   * task and the number holding a task not completed.
   */
  function StatsOf(tasks: seq<Task>): (s: Stats)
    ensures s.total == |tasks| && s.completed + s.pending == s.total
    ensures s.completed == |set i | 0 <= i < |tasks| && tasks[i].completed|
    ensures s.pending == |set i | 0 <= i < |tasks| && !tasks[i].completed|
    ensures s.completed == 0 <==> forall i :: 0 <= i < |tasks| ==> !tasks[i].completed
  {
    CompletedPlusPending(tasks);
    NoneCompleted(tasks);
    CountCompletedPositions(tasks, |tasks|);
    CountPendingPositions(tasks, |tasks|);
    assert tasks[..|tasks|] == tasks;
    Stats(|tasks|, CountCompleted(tasks), CountPending(tasks))
  }

  /** A list has no completed task exactly when its completed count is zero. */
  lemma {:induction false} NoneCompleted(tasks: seq<Task>)
    ensures CountCompleted(tasks) == 0 <==> forall i :: 0 <= i < |tasks| ==> !tasks[i].completed
    decreases |tasks|
  {
    if tasks != [] {
      NoneCompleted(tasks[1..]);
      assert forall i :: 1 <= i < |tasks| ==> tasks[i] == tasks[1..][i - 1];
    }
  }

  /** The store. It starts with no tasks, not loading and with no error. */
  class Store {
    var tasks: seq<Task>
    var loading: bool
    var error: Option<string>

    constructor ()
      ensures tasks == [] && !loading && error == None
    {
      tasks := [];
      loading := false;
      error := None;
    }

    /**
     * Mark loading and clear the error, then take the fetched list, or keep the
     * old one and record the error; either way loading ends.
     */
    method FetchTasks(reply: Reply<seq<Task>>)
      modifies this
      ensures !loading
      ensures reply.Resolved? ==> tasks == reply.data && error == None
      ensures reply.Rejected? ==> tasks == old(tasks) && error == Some(FetchError)
    {
      loading, error := true, None;
      match reply
      case Resolved(data) =>
        tasks, loading := data, false;
      case Rejected =>
        error, loading := Some(FetchError), false;
    }

    /** Put the created task in front and clear the error, or record the error; says which. */
    method AddTask(reply: Reply<Task>) returns (ok: bool)
      modifies this
      ensures ok <==> reply.Resolved?
      ensures loading == old(loading)
      ensures reply.Resolved? ==> tasks == [reply.data] + old(tasks) && error == None
      ensures reply.Resolved? ==> tasks[0] == reply.data && tasks[1..] == old(tasks)
      ensures reply.Rejected? ==> tasks == old(tasks) && error == Some(AddError)
    {
      match reply
      case Resolved(task) =>
        tasks, error := [task] + tasks, None;
        return true;
      case Rejected =>
        error := Some(AddError);
        return false;
    }

    /** Replace every task with this id by the updated one and clear the error, or record the error. */
    method UpdateTask(id: Id, reply: Reply<Task>)
      modifies this
      ensures loading == old(loading)
      ensures reply.Resolved? ==> tasks == ReplaceById(old(tasks), id, reply.data) && error == None
      ensures reply.Rejected? ==> tasks == old(tasks) && error == Some(UpdateError)
    {
      match reply
      case Resolved(task) =>
        tasks, error := ReplaceById(tasks, id, task), None;
      case Rejected =>
        error := Some(UpdateError);
    }

    /** Drop every task with this id and clear the error, or record the error. */
    method DeleteTask(id: Id, reply: Reply<()>)
      modifies this
      ensures loading == old(loading)
      ensures reply.Resolved? ==> tasks == RemoveById(old(tasks), id) && error == None
      ensures reply.Rejected? ==> tasks == old(tasks) && error == Some(DeleteError)
    {
      match reply
      case Resolved(_) =>
        tasks, error := RemoveById(tasks, id), None;
      case Rejected =>
        error := Some(DeleteError);
    }

    /** The stats selector. */
    function GetStats(): (s: Stats)
      reads this
      ensures s == StatsOf(tasks)
      ensures s.total == |tasks| && s.completed + s.pending == s.total
      ensures s.completed == |set i | 0 <= i < |tasks| && tasks[i].completed|
      ensures s.pending == |set i | 0 <= i < |tasks| && !tasks[i].completed|
    {
      StatsOf(tasks)
    }
  }
}
