/** The task registry: an in-memory map from task id to task record. Each
    method runs under the registry's lock in the source, so each is one
    atomic step here. */
module Memory {
  import opened Wrappers
  import opened Models

  /** One registry request, for reasoning about interleaved callers. */
  datatype Op =
    | CreateTask(task: TaskState)
    | UpdateTask(id: TaskId, task: TaskState)
    | DeleteTask(id: TaskId)
    | ClearAll

  /** Every record is stored under its own id. */
  ghost predicate KeyedById(m: map<TaskId, TaskState>) {
    forall id | id in m :: m[id].taskId == id
  }

  /** The effect of one request on the registry's contents. */
  function Apply(m: map<TaskId, TaskState>, op: Op): (m': map<TaskId, TaskState>)
    ensures op.CreateTask? ==>
      m'.Keys == m.Keys + {op.task.taskId} && m'[op.task.taskId] == op.task
      && forall k | k in m && k != op.task.taskId :: m'[k] == m[k]
    ensures op.UpdateTask? ==>
      m'.Keys == m.Keys && (op.id in m ==> m'[op.id] == op.task)
      && forall k | k in m && k != op.id :: m'[k] == m[k]
    ensures op.DeleteTask? ==>
      m'.Keys == m.Keys - {op.id} && forall k | k in m' :: m'[k] == m[k]
    ensures op.ClearAll? ==> m' == map[]
    ensures KeyedById(m) && (op.UpdateTask? ==> op.task.taskId == op.id) ==> KeyedById(m')
  {
    match op
    case CreateTask(t) => m[t.taskId := t]
    case UpdateTask(id, t) => if id in m then m[id := t] else m
    case DeleteTask(id) => m - {id}
    case ClearAll => map[]
  }

  /** The registry after a sequence of requests, applied in order. */
  function ApplyAll(m: map<TaskId, TaskState>, ops: seq<Op>): map<TaskId, TaskState> {
    if ops == [] then m else Apply(ApplyAll(m, ops[..|ops| - 1]), ops[|ops| - 1])
  }

  /** Updates never add a key: once a task is deleted (or was never created),
      no interleaving of later updates, deletes and clears brings it back;
      only a create under that id can. */
  lemma {:induction false} NoResurrection(m: map<TaskId, TaskState>, ops: seq<Op>, id: TaskId)
    requires id !in m
    requires forall k | 0 <= k < |ops| :: !(ops[k].CreateTask? && ops[k].task.taskId == id)
    ensures id !in ApplyAll(m, ops)
  {
    if ops != [] {
      NoResurrection(m, ops[..|ops| - 1], id);
    }
  }

  /** Keys appear only through creates: the registry's ids after any
      sequence of requests are the old ids plus the created ones. */
  lemma {:induction false} KeysComeFromCreates(m: map<TaskId, TaskState>, ops: seq<Op>)
    ensures ApplyAll(m, ops).Keys <= m.Keys + set k | 0 <= k < |ops| && ops[k].CreateTask? :: ops[k].task.taskId
  {
    if ops != [] {
      var prefix := ops[..|ops| - 1];
      KeysComeFromCreates(m, prefix);
      forall k | 0 <= k < |prefix| && prefix[k].CreateTask?
        ensures prefix[k].task.taskId in set j | 0 <= j < |ops| && ops[j].CreateTask? :: ops[j].task.taskId
      {
        assert ops[k] == prefix[k];
      }
    }
  }

  class MemoryStore {
    var tasks: map<TaskId, TaskState>

    constructor ()
      ensures tasks == map[]
    {
      tasks := map[];
    }

    /** Stores the record under its own id, replacing any earlier one. */
    method Create(task: TaskState) returns (r: TaskState)
      modifies this
      ensures tasks == Apply(old(tasks), CreateTask(task))
      ensures r == task
    {
      tasks := tasks[task.taskId := task];
      r := task;
    }

    method Get(id: TaskId) returns (r: Option<TaskState>)
      ensures r.Some? <==> id in tasks
      ensures r.Some? ==> r.value == tasks[id]
    {
      r := if id in tasks then Some(tasks[id]) else None;
    }

    /** Writes only when the id is already present; otherwise nothing changes. */
    method Update(id: TaskId, task: TaskState) returns (r: Option<TaskState>)
      modifies this
      ensures tasks == Apply(old(tasks), UpdateTask(id, task))
      ensures r == if id in old(tasks) then Some(task) else None
    {
      if id in tasks {
        tasks := tasks[id := task];
        r := Some(task);
      } else {
        r := None;
      }
    }

    /** Removes the id and reports whether it was there. */
    method Delete(id: TaskId) returns (deleted: bool)
      modifies this
      ensures deleted == (id in old(tasks))
      ensures tasks == Apply(old(tasks), DeleteTask(id))
    {
      deleted := id in tasks;
      if deleted {
        tasks := tasks - {id};
      }
    }

    /** A copy of the whole registry. */
    method ListAll() returns (all: map<TaskId, TaskState>)
      ensures all.Keys == tasks.Keys
      ensures forall id | id in all :: all[id] == tasks[id]
    {
      all := tasks;
    }

    method Clear()
      modifies this
      ensures tasks == map[]
    {
      tasks := map[];
    }
  }
}
