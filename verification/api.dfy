/** The request handlers' behaviour: task creation and the run it starts,
    the status and report lookups, the progress event stream, deletion and
    the listing of all tasks. A missing task is the HTTP 404 answer. */
module Api {
  import opened Wrappers
  import opened Text
  import opened Models
  import opened Memory
  import opened Planner
  import opened Executor
  import opened GeminiClient
  import opened Graph

  /** The record `create_report` registers before the run starts. */
  function InitialTask(id: TaskId, query: string): (t: TaskState)
    ensures t.taskId == id && t.query == query
    ensures t.status == Planning && !t.status.IsTerminal() && t.progress == 0
    ensures t.report == None && t.error == None && t.subQuestions == []
    ensures t.currentStep == "Initializing research workflow..."
  {
    TaskState(id, query, Planning, "Initializing research workflow...", 0, [], None, None)
  }

  datatype CreateResponse = CreateResponse(taskId: TaskId, status: string, message: string)

  /** `create_report`: registers the initial record under the new id, then runs
      the workflow on it (the background task, run here to completion). */
  method CreateReport(store: MemoryStore, id: TaskId, query: string,
                      plan: PlanReply, answers: nat -> Answer, pub: Response, raised: Option<string>)
    returns (resp: CreateResponse)
    modifies store
    ensures resp == CreateResponse(id, "started", "Research workflow initiated")
    ensures store.tasks ==
      old(store.tasks)[id := Run(InitialTask(id, query), GraphOutputs(query, plan, answers, pub), raised)]
  {
    var task := InitialTask(id, query);
    var _ := store.Create(task);
    ghost var created := store.tasks;
    assert id in created;
    var outputs := GraphOutputs(query, plan, answers, pub);
    var final, _ := RunResearchWorkflow(store, task, outputs, raised);
    assert store.tasks == created[id := final];
    assert created[id := final] == old(store.tasks)[id := final];
    resp := CreateResponse(id, "started", "Research workflow initiated");
  }

  datatype StatusResponse = StatusResponse(
    taskId: TaskId,
    status: TaskStatus,
    currentStep: string,
    progress: int,
    subQuestionsCount: nat,
    completedQuestions: nat)

  /** The status body for a record. */
  function StatusOf(id: TaskId, t: TaskState): StatusResponse {
    StatusResponse(id, t.status, t.currentStep, t.progress, |t.subQuestions|, CountCompleted(t.subQuestions))
  }

  /** `get_report_status`: `None` is the 404 answer for an unknown id. */
  method GetReportStatus(store: MemoryStore, id: TaskId) returns (r: Option<StatusResponse>)
    ensures r.None? <==> id !in store.tasks
    ensures r.Some? ==>
      var t := store.tasks[id];
      && r.value.taskId == id && r.value.status == t.status && r.value.progress == t.progress
      && r.value.currentStep == t.currentStep
      && r.value.subQuestionsCount == |t.subQuestions|
      && r.value.completedQuestions == CountCompleted(t.subQuestions)
      && r.value.completedQuestions <= r.value.subQuestionsCount
  {
    var found := store.Get(id);
    match found {
      case None => r := None;
      case Some(t) => r := Some(StatusOf(id, t));
    }
  }

  /** `get_report`: the whole record, or `None` for the 404 answer. */
  method GetReport(store: MemoryStore, id: TaskId) returns (r: Option<TaskState>)
    ensures r.None? <==> id !in store.tasks
    ensures r.Some? ==> r.value == store.tasks[id]
  {
    r := store.Get(id);
  }

  /** What the progress stream sends. */
  datatype Event =
    | Snapshot(status: string, currentStep: string, progress: int, subQuestionsCount: nat, completedQuestions: nat)
    | Finished(status: string)
    | TaskNotFound

  function SnapshotOf(t: TaskState): Event {
    Snapshot(t.status.Value(), t.currentStep, t.progress, |t.subQuestions|, CountCompleted(t.subQuestions))
  }

  /** The events for the successive reads `polls` of the record (`None`: it
      was gone), when the last progress sent is `last`. */
  function StreamEvents(polls: seq<Option<TaskState>>, last: int): seq<Event> {
    if polls == [] then []
    else match polls[0]
      case None => [TaskNotFound]
      case Some(t) =>
        var sent := if t.progress != last then [SnapshotOf(t)] else [];
        if t.status.IsTerminal() then sent + [Finished(t.status.Value())]
        else sent + StreamEvents(polls[1..], t.progress)
  }

  /** A poll that closes the stream. */
  predicate Closes(poll: Option<TaskState>) {
    poll.None? || poll.value.status.IsTerminal()
  }

  /** `event_generator`: reads the record once per round, sends a snapshot when
      the progress changed since the last one sent, and stops after the final
      event or when the task has disappeared. */
  method EventGenerator(polls: seq<Option<TaskState>>) returns (events: seq<Event>)
    ensures events == StreamEvents(polls, -1)
  {
    events := [];
    var lastProgress := -1;
    var i := 0;
    while i < |polls|
      invariant 0 <= i <= |polls|
      invariant events + StreamEvents(polls[i..], lastProgress) == StreamEvents(polls, -1)
    {
      var closed;
      events, lastProgress, closed := PollRound(polls, i, lastProgress, events);
      if closed {
        return;
      }
      i := i + 1;
    }
  }

  /** One round of `event_generator`: read the record, send a snapshot when the
      progress moved, and close on a final status or a missing task. */
  method PollRound(polls: seq<Option<TaskState>>, i: nat, lastProgress: int, events: seq<Event>)
    returns (events': seq<Event>, lastProgress': int, closed: bool)
    requires i < |polls|
    ensures closed <==> Closes(polls[i])
    ensures closed ==> events' == events + StreamEvents(polls[i..], lastProgress)
    ensures !closed ==>
      events' + StreamEvents(polls[i + 1..], lastProgress') == events + StreamEvents(polls[i..], lastProgress)
  {
    StreamStep(polls, i, lastProgress);
    events', lastProgress' := events, lastProgress;
    var current := polls[i];
    if current.None? {
      events' := events' + [TaskNotFound];
      return events', lastProgress', true;
    }
    var t := current.value;
    if t.progress != lastProgress {
      lastProgress' := t.progress;
      events' := events' + [SnapshotOf(t)];
    }
    if t.status.IsTerminal() {
      events' := events' + [Finished(t.status.Value())];
      return events', lastProgress', true;
    }
    closed := false;
  }

  /** One round of the stream: what the read at `i` adds in front of the rest. */
  lemma StreamStep(polls: seq<Option<TaskState>>, i: nat, last: int)
    requires i < |polls|
    ensures polls[i].None? ==> StreamEvents(polls[i..], last) == [TaskNotFound]
    ensures polls[i].Some? ==>
      var t := polls[i].value;
      var sent := if t.progress != last then [SnapshotOf(t)] else [];
      StreamEvents(polls[i..], last) ==
        if t.status.IsTerminal() then sent + [Finished(t.status.Value())]
        else sent + StreamEvents(polls[i + 1..], t.progress)
  {
    assert polls[i..][1..] == polls[i + 1..];
  }

  /** Properties of the stream: every event but the last is a snapshot, two
      snapshots in a row never carry the same progress, the first differs from
      the starting value, and the stream closes exactly when some poll finds
      the task finished or gone. */
  lemma {:induction false} StreamShape(polls: seq<Option<TaskState>>, last: int)
    ensures var e := StreamEvents(polls, last);
      && (forall k | 0 <= k < |e| - 1 :: e[k].Snapshot?)
      && (forall k | 0 <= k < |e| - 1 :: e[k + 1].Snapshot? ==> e[k].progress != e[k + 1].progress)
      && (e != [] && e[0].Snapshot? ==> e[0].progress != last)
      && ((e != [] && !e[|e| - 1].Snapshot?) <==> exists i | 0 <= i < |polls| :: Closes(polls[i]))
  {
    if polls != [] && polls[0].Some? && !polls[0].value.status.IsTerminal() {
      var t := polls[0].value;
      var rest := polls[1..];
      StreamShape(rest, t.progress);
      var tail := StreamEvents(rest, t.progress);
      var sent := if t.progress != last then [SnapshotOf(t)] else [];
      var e := sent + tail;
      assert StreamEvents(polls, last) == e;
      forall k | 0 <= k < |e| - 1 && e[k + 1].Snapshot? ensures e[k].progress != e[k + 1].progress {
        if k >= |sent| {
          assert e[k] == tail[k - |sent|] && e[k + 1] == tail[k + 1 - |sent|];
        } else {
          assert e[k + 1] == tail[0];
        }
      }
      if exists i | 0 <= i < |polls| :: Closes(polls[i]) {
        var i :| 0 <= i < |polls| && Closes(polls[i]);
        assert i > 0 && Closes(rest[i - 1]);
      }
      if exists i | 0 <= i < |rest| :: Closes(rest[i]) {
        var i :| 0 <= i < |rest| && Closes(rest[i]);
        assert Closes(polls[i + 1]);
      }
    }
  }

  /** The first read of a task always produces a snapshot, since no progress
      value equals the starting -1 that the records ever hold. */
  lemma FirstReadSent(polls: seq<Option<TaskState>>)
    requires polls != [] && polls[0].Some? && polls[0].value.progress >= 0
    ensures StreamEvents(polls, -1)[0] == SnapshotOf(polls[0].value)
  {
  }

  /** `stream_report_progress`: 404 when the task is unknown at the start. */
  method StreamReportProgress(store: MemoryStore, id: TaskId, polls: seq<Option<TaskState>>)
    returns (r: Option<seq<Event>>)
    ensures r.None? <==> id !in store.tasks
    ensures r.Some? ==> r.value == StreamEvents(polls, -1)
  {
    var found := store.Get(id);
    if found.None? {
      return None;
    }
    var events := EventGenerator(polls);
    r := Some(events);
  }

  /** `delete_report`: `false` is the 404 answer; afterwards the id is unknown. */
  method DeleteReport(store: MemoryStore, id: TaskId) returns (deleted: bool)
    modifies store
    ensures deleted <==> id in old(store.tasks)
    ensures id !in store.tasks
    ensures store.tasks == old(store.tasks) - {id}
  {
    deleted := store.Delete(id);
  }

  datatype TaskSummary = TaskSummary(taskId: TaskId, query: string, status: string, progress: int, hasReport: bool)

  function SummaryOf(id: TaskId, t: TaskState): TaskSummary {
    TaskSummary(id, t.query, t.status.Value(), t.progress, t.report.Some?)
  }

  /** The ids the summaries are about, in order. */
  function TaskIds(summaries: seq<TaskSummary>): (ids: seq<TaskId>)
    ensures |ids| == |summaries|
    ensures forall k | 0 <= k < |ids| :: ids[k] == summaries[k].taskId
  {
    seq(|summaries|, k requires 0 <= k < |summaries| => summaries[k].taskId)
  }

  /** The loop of `list_reports` over a snapshot `all` of the registry. */
  method SummarizeAll(all: map<TaskId, TaskState>) returns (summaries: seq<TaskSummary>)
    ensures |summaries| == |all|
    ensures forall k | 0 <= k < |summaries| ::
      summaries[k].taskId in all && summaries[k] == SummaryOf(summaries[k].taskId, all[summaries[k].taskId])
    ensures forall id | id in all :: id in TaskIds(summaries)
    ensures forall j, k | 0 <= j < k < |summaries| :: summaries[j].taskId != summaries[k].taskId
  {
    var remaining := all.Keys;
    summaries := [];
    ghost var ids: seq<TaskId> := [];
    while remaining != {}
      invariant remaining <= all.Keys
      invariant |ids| + |remaining| == |all.Keys|
      invariant forall id | id in all :: id in remaining <==> id !in ids
      invariant |summaries| == |ids|
      invariant forall k | 0 <= k < |ids| :: ids[k] in all && summaries[k] == SummaryOf(ids[k], all[ids[k]])
      invariant forall j, k | 0 <= j < k < |ids| :: ids[j] != ids[k]
      decreases |remaining|
    {
      var id :| id in remaining;
      summaries := summaries + [SummaryOf(id, all[id])];
      ids := ids + [id];
      remaining := remaining - {id};
    }
    assert TaskIds(summaries) == ids;
  }

  /** `list_reports`: one summary per registered task, each for a different id. */
  method ListReports(store: MemoryStore) returns (summaries: seq<TaskSummary>, count: nat)
    ensures count == |summaries| == |store.tasks|
    ensures forall k | 0 <= k < |summaries| ::
      summaries[k].taskId in store.tasks && summaries[k] == SummaryOf(summaries[k].taskId, store.tasks[summaries[k].taskId])
    ensures forall id | id in store.tasks :: id in TaskIds(summaries)
    ensures forall j, k | 0 <= j < k < |summaries| :: summaries[j].taskId != summaries[k].taskId
  {
    var all := store.ListAll();
    assert all == store.tasks;
    summaries := SummarizeAll(all);
    count := |summaries|;
  }
}
