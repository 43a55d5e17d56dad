/** The workflow controller: the two routing predicates between the nodes,
    the state the nodes share, and the loop of `run_research_workflow` that
    folds each node's partial output into the task record and writes the
    record to the registry after every step. */
module Graph {
  import opened Wrappers
  import opened Models
  import opened Memory
  import opened Planner
  import opened Executor
  import opened GeminiClient
  import opened Publisher

  /** The state the nodes share while the graph runs. */
  datatype GraphState = GraphState(
    query: string,
    status: string,
    subQuestions: seq<SubQuestion>,
    report: Option<Report>,
    error: Option<string>,
    currentStep: string,
    progress: int)

  function InitialGraphState(query: string): GraphState {
    GraphState(query, "planning", [], None, None, "Starting research...", 0)
  }

  /** A node's output overwrites exactly the keys it carries. */
  function Merge(g: GraphState, o: NodeOutput): GraphState {
    GraphState(
      g.query,
      o.status.GetOr(g.status),
      o.subQuestions.GetOr(g.subQuestions),
      if o.report.Some? then o.report else g.report,
      if o.error.Some? then o.error else g.error,
      o.currentStep.GetOr(g.currentStep),
      o.progress.GetOr(g.progress))
  }

  datatype Route = ToExecutor | ToPublisher | End

  /** `should_continue_to_executor`. */
  function ShouldContinueToExecutor(g: GraphState): (r: Route)
    ensures r == End || r == ToExecutor
    ensures r == End <==> Truthy(g.error) || g.subQuestions == []
  {
    if Truthy(g.error) then End
    else if g.subQuestions == [] then End
    else ToExecutor
  }

  /** `should_continue_to_publisher`: counts the completed units. */
  function ShouldContinueToPublisher(g: GraphState): (r: Route)
    ensures r == End || r == ToPublisher
    ensures r == ToPublisher <==>
      && !Truthy(g.error)
      && g.subQuestions != []
      && exists i | 0 <= i < |g.subQuestions| :: g.subQuestions[i].status == Completed
  {
    if Truthy(g.error) then End
    else if g.subQuestions == [] then End
    else if CountCompleted(g.subQuestions) == 0 then End
    else ToPublisher
  }

  /** The node outputs `astream` yields: the planner's, then the executor's
      and the publisher's when the routing lets the run reach them. */
  function GraphOutputs(query: string, plan: PlanReply, answers: nat -> Answer, pub: Response): (outs: seq<NodeOutput>)
    ensures 1 <= |outs| <= 3
    ensures outs[0] == PlannerNode(plan)
  {
    var g0 := InitialGraphState(query);
    var o1 := PlannerNode(plan);
    var g1 := Merge(g0, o1);
    if ShouldContinueToExecutor(g1) == End then [o1]
    else
      var o2 := ExecutorNode(g1.subQuestions, answers);
      var g2 := Merge(g1, o2);
      if ShouldContinueToPublisher(g2) == End then [o1, o2]
      else [o1, o2, PublisherNode(g2.query, g2.subQuestions, pub)]
  }

  /** The status map of the loop; "failed" and any unknown value keep the current status. */
  function MapStatus(s: string, current: TaskStatus): (r: TaskStatus)
    ensures s in {"planning", "executing", "publishing", "done"} ==> r.Value() == s
    ensures s !in {"planning", "executing", "publishing", "done"} ==> r == current
  {
    if s == "planning" then Planning
    else if s == "executing" then Executing
    else if s == "publishing" then Publishing
    else if s == "done" then Done
    else current
  }

  /** The record at the start of the run. */
  function Start(task: TaskState): TaskState {
    task.(status := Planning).UpdateProgress("Planning research questions...", 5)
  }

  /** One pass of the loop body on a non-empty output, in the source's order:
      status, progress, units, report, error. */
  function ApplyOutput(t: TaskState, o: NodeOutput): (t': TaskState)
    ensures t'.taskId == t.taskId && t'.query == t.query
  {
    var t1 := if Truthy(o.status) then t.(status := MapStatus(o.status.value, t.status)) else t;
    var t2 := if Truthy(o.currentStep) || o.progress.Some?
      then t1.UpdateProgress(o.currentStep.GetOr(t1.currentStep), o.progress.GetOr(t1.progress))
      else t1;
    var t3 := if o.subQuestions.Some? && o.subQuestions.value != [] then t2.(subQuestions := o.subQuestions.value) else t2;
    var t4 := if o.report.Some?
      then t3.(report := o.report, status := Done).UpdateProgress("Research complete!", 100)
      else t3;
    if Truthy(o.error) then t4.(status := TaskStatus.Failed, error := o.error) else t4
  }

  /** What one pass of the loop body does to each field of the record. */
  lemma ApplyOutputEffects(t: TaskState, o: NodeOutput)
    ensures Truthy(o.error) ==> ApplyOutput(t, o).status == TaskStatus.Failed && ApplyOutput(t, o).error == o.error
    ensures !Truthy(o.error) ==> ApplyOutput(t, o).error == t.error
    ensures o.report.Some? ==> ApplyOutput(t, o).report == o.report && ApplyOutput(t, o).progress == 100 && ApplyOutput(t, o).currentStep == "Research complete!"
    ensures o.report.Some? && !Truthy(o.error) ==> ApplyOutput(t, o).status == Done
    ensures o.report.None? ==> ApplyOutput(t, o).report == t.report && ApplyOutput(t, o).progress == o.progress.GetOr(t.progress)
    ensures o.report.None? && !Truthy(o.error) ==>
      ApplyOutput(t, o).status == if Truthy(o.status) then MapStatus(o.status.value, t.status) else t.status
    ensures o.report.None? && o.currentStep.None? ==> ApplyOutput(t, o).currentStep == t.currentStep
    ensures o.report.None? && o.currentStep.Some? && (o.currentStep.value != "" || o.progress.Some?) ==>
      ApplyOutput(t, o).currentStep == o.currentStep.value
    ensures ApplyOutput(t, o).subQuestions ==
      if o.subQuestions.Some? && o.subQuestions.value != [] then o.subQuestions.value else t.subQuestions
  {
  }

  /** The record after the loop has consumed `outs`; empty outputs are skipped. */
  function FoldOutputs(t: TaskState, outs: seq<NodeOutput>): (r: TaskState)
    ensures r.taskId == t.taskId && r.query == t.query
  {
    if outs == [] then t
    else
      var before := FoldOutputs(t, outs[..|outs| - 1]);
      if outs[|outs| - 1].IsEmpty() then before else ApplyOutput(before, outs[|outs| - 1])
  }

  /** `final_state`: the last non-empty output, if any. */
  function LastNonEmpty(outs: seq<NodeOutput>): (r: Option<NodeOutput>)
    ensures r.Some? ==> !r.value.IsEmpty() && r.value in outs
    ensures r.None? <==> forall i | 0 <= i < |outs| :: outs[i].IsEmpty()
  {
    if outs == [] then None
    else if !outs[|outs| - 1].IsEmpty() then Some(outs[|outs| - 1])
    else
      var r := LastNonEmpty(outs[..|outs| - 1]);
      assert forall o | o in outs[..|outs| - 1] :: o in outs;
      r
  }

  /** The output `LastNonEmpty` picks is followed only by empty outputs. */
  lemma {:induction false} LastNonEmptyIsLast(outs: seq<NodeOutput>)
    requires LastNonEmpty(outs).Some?
    ensures exists i | 0 <= i < |outs| ::
      outs[i] == LastNonEmpty(outs).value && forall j | i < j < |outs| :: outs[j].IsEmpty()
  {
    var n := |outs|;
    var r := LastNonEmpty(outs).value;
    if outs[n - 1].IsEmpty() {
      var prefix := outs[..n - 1];
      assert LastNonEmpty(outs) == LastNonEmpty(prefix);
      LastNonEmptyIsLast(prefix);
      var i :| 0 <= i < |prefix| && prefix[i] == r && forall j | i < j < |prefix| :: prefix[j].IsEmpty();
      forall j | i < j < n ensures outs[j].IsEmpty() {
        if j < n - 1 {
          assert outs[j] == prefix[j];
        }
      }
      assert outs[i] == r;
    } else {
      assert outs[n - 1] == r;
    }
  }

  /** The step after the loop: an error in the last output fails the task
      with progress 0; otherwise a report not yet marked done is marked done. */
  function Finish(t: TaskState, final: Option<NodeOutput>): (r: TaskState)
    ensures r.taskId == t.taskId && r.query == t.query
    ensures final.Some? && Truthy(final.value.error) ==>
      && r.status == TaskStatus.Failed && r.error == final.value.error
      && r.progress == 0 && r.currentStep == "Failed: " + final.value.error.value
    ensures final.Some? && !Truthy(final.value.error) && t.status != Done && t.report.Some? ==>
      r == t.(status := Done, currentStep := "Research complete!", progress := 100)
    ensures final.Some? && !Truthy(final.value.error) && (t.status == Done || t.report.None?) ==> r == t
    ensures final.None? ==> r == t
  {
    match final
    case None => t
    case Some(o) =>
      if Truthy(o.error) then
        t.(status := TaskStatus.Failed, error := o.error).UpdateProgress("Failed: " + o.error.value, 0)
      else if t.status != Done && t.report.Some? then
        t.(status := Done).UpdateProgress("Research complete!", 100)
      else t
  }

  /** The exception handler: the task fails with the message and progress 0. */
  function Abort(t: TaskState, message: string): TaskState {
    t.(status := TaskStatus.Failed, error := Some(message)).UpdateProgress("Workflow failed: " + message, 0)
  }

  /** The record `run_research_workflow` returns when the stream yields `outs`
      and then raises `raised`, if that is `Some`. */
  function Run(task: TaskState, outs: seq<NodeOutput>, raised: Option<string>): (r: TaskState)
    ensures r.taskId == task.taskId && r.query == task.query
    ensures raised.Some? ==>
      r.status == TaskStatus.Failed && r.error == raised && r.progress == 0
      && r.currentStep == "Workflow failed: " + raised.value
  {
    var looped := FoldOutputs(Start(task), outs);
    match raised
    case Some(message) => Abort(looped, message)
    case None => Finish(looped, LastNonEmpty(outs))
  }

  /** The record as it stands after each non-empty output. */
  function Snapshots(t: TaskState, outs: seq<NodeOutput>): seq<TaskState> {
    if outs == [] then []
    else
      Snapshots(t, outs[..|outs| - 1]) + (if outs[|outs| - 1].IsEmpty() then [] else [FoldOutputs(t, outs)])
  }

  /** Every record the run hands to the registry, in order. */
  function Writes(task: TaskState, outs: seq<NodeOutput>, raised: Option<string>): seq<TaskState> {
    [Start(task)] + Snapshots(Start(task), outs) + [Run(task, outs, raised)]
  }

  function NonEmptyCount(outs: seq<NodeOutput>): nat {
    if outs == [] then 0
    else NonEmptyCount(outs[..|outs| - 1]) + (if outs[|outs| - 1].IsEmpty() then 0 else 1)
  }

  /** The registry is written once at the start, once per non-empty output
      and once at the end, and the last write is the returned record. */
  lemma {:induction false} WritesCount(task: TaskState, outs: seq<NodeOutput>, raised: Option<string>)
    ensures |Writes(task, outs, raised)| == NonEmptyCount(outs) + 2
    ensures Writes(task, outs, raised)[0].progress == 5
    ensures Writes(task, outs, raised)[|Writes(task, outs, raised)| - 1] == Run(task, outs, raised)
  {
    SnapshotsCount(Start(task), outs);
  }

  lemma {:induction false} SnapshotsCount(t: TaskState, outs: seq<NodeOutput>)
    ensures |Snapshots(t, outs)| == NonEmptyCount(outs)
  {
    if outs != [] {
      SnapshotsCount(t, outs[..|outs| - 1]);
    }
  }

  /** The loop body on a non-empty output, updating the record field by field. */
  method ApplyNodeOutput(t: TaskState, o: NodeOutput) returns (t': TaskState)
    ensures t' == ApplyOutput(t, o)
  {
    t' := t;
    if Truthy(o.status) {
      t' := t'.(status := MapStatus(o.status.value, t'.status));
    }
    if Truthy(o.currentStep) || o.progress.Some? {
      t' := t'.UpdateProgress(o.currentStep.GetOr(t'.currentStep), o.progress.GetOr(t'.progress));
    }
    if o.subQuestions.Some? && o.subQuestions.value != [] {
      t' := t'.(subQuestions := o.subQuestions.value);
    }
    if o.report.Some? {
      t' := t'.(report := o.report, status := Done);
      t' := t'.UpdateProgress("Research complete!", 100);
    }
    if Truthy(o.error) {
      t' := t'.(status := TaskStatus.Failed, error := o.error);
    }
  }

  /** The step after the loop, or the exception handler when the stream raised. */
  method FinishRun(t: TaskState, finalState: Option<NodeOutput>, raised: Option<string>) returns (t': TaskState)
    ensures t' == match raised case Some(message) => Abort(t, message) case None => Finish(t, finalState)
  {
    t' := t;
    match raised {
      case Some(message) =>
        t' := t'.(status := TaskStatus.Failed, error := Some(message));
        t' := t'.UpdateProgress("Workflow failed: " + message, 0);
      case None =>
        if finalState.Some? {
          if Truthy(finalState.value.error) {
            t' := t'.(status := TaskStatus.Failed, error := finalState.value.error);
            t' := t'.UpdateProgress("Failed: " + finalState.value.error.value, 0);
          } else if t'.status != Done {
            if t'.report.Some? {
              t' := t'.(status := Done);
              t' := t'.UpdateProgress("Research complete!", 100);
            }
          }
        }
    }
  }

  /** The registry with the task's entry set to `t`, if the task is registered. */
  function WithRecord(before: map<TaskId, TaskState>, id: TaskId, t: TaskState): map<TaskId, TaskState> {
    if id in before then before[id := t] else before
  }

  /** The first write puts the record in place when the task is registered. */
  lemma FirstWrite(before: map<TaskId, TaskState>, id: TaskId, t: TaskState)
    ensures Apply(before, UpdateTask(id, t)) == WithRecord(before, id, t)
  {
  }

  lemma WithRecordTwice(before: map<TaskId, TaskState>, id: TaskId, t0: TaskState, t1: TaskState)
    ensures WithRecord(WithRecord(before, id, t0), id, t1) == WithRecord(before, id, t1)
  {
  }

  /** Writing a newer record replaces the older one. */
  lemma RewriteRecord(before: map<TaskId, TaskState>, id: TaskId, t0: TaskState, t1: TaskState)
    ensures Apply(WithRecord(before, id, t0), UpdateTask(id, t1)) == WithRecord(before, id, t1)
  {
  }

  /** What consuming one more output does to the loop's specifications. */
  lemma StepFacts(t: TaskState, outs: seq<NodeOutput>, i: nat)
    requires i < |outs|
    ensures FoldOutputs(t, outs[..i + 1]) ==
      if outs[i].IsEmpty() then FoldOutputs(t, outs[..i]) else ApplyOutput(FoldOutputs(t, outs[..i]), outs[i])
    ensures LastNonEmpty(outs[..i + 1]) == if outs[i].IsEmpty() then LastNonEmpty(outs[..i]) else Some(outs[i])
    ensures Snapshots(t, outs[..i + 1]) ==
      Snapshots(t, outs[..i]) + (if outs[i].IsEmpty() then [] else [FoldOutputs(t, outs[..i + 1])])
  {
    assert outs[..i + 1][..i] == outs[..i];
  }

  /** One round of the `astream` loop: a non-empty output is applied and the
      record written; an empty one is skipped. */
  method ConsumeOne(store: MemoryStore, ghost before: map<TaskId, TaskState>, start: TaskState,
                    outputs: seq<NodeOutput>, i: nat,
                    t: TaskState, finalState: Option<NodeOutput>, ghost written: seq<TaskState>)
    returns (t': TaskState, finalState': Option<NodeOutput>, ghost written': seq<TaskState>)
    modifies store
    requires i < |outputs|
    requires t == FoldOutputs(start, outputs[..i]) && t.taskId == start.taskId
    requires finalState == LastNonEmpty(outputs[..i])
    requires written == Snapshots(start, outputs[..i])
    requires store.tasks == WithRecord(before, start.taskId, t)
    ensures t' == FoldOutputs(start, outputs[..i + 1]) && t'.taskId == start.taskId
    ensures finalState' == LastNonEmpty(outputs[..i + 1])
    ensures written' == Snapshots(start, outputs[..i + 1])
    ensures store.tasks == WithRecord(before, start.taskId, t')
  {
    var o := outputs[i];
    StepFacts(start, outputs, i);
    t', finalState', written' := t, finalState, written;
    if !o.IsEmpty() {
      t' := ApplyNodeOutput(t, o);
      var _ := store.Update(t'.taskId, t');
      RewriteRecord(before, start.taskId, t, t');
      written' := written + [t'];
      finalState' := Some(o);
    }
  }

  /** The `astream` loop: applies each non-empty output and writes the record after it. */
  method ConsumeOutputs(store: MemoryStore, start: TaskState, outputs: seq<NodeOutput>)
    returns (t: TaskState, finalState: Option<NodeOutput>, ghost written: seq<TaskState>)
    modifies store
    requires start.taskId in store.tasks ==> store.tasks[start.taskId] == start
    ensures t == FoldOutputs(start, outputs)
    ensures finalState == LastNonEmpty(outputs)
    ensures written == Snapshots(start, outputs)
    ensures store.tasks == WithRecord(old(store.tasks), start.taskId, t)
  {
    ghost var before := store.tasks;
    assert before == WithRecord(before, start.taskId, start);
    t := start;
    finalState := None;
    written := [];
    var i := 0;
    while i < |outputs|
      invariant 0 <= i <= |outputs|
      invariant t == FoldOutputs(start, outputs[..i]) && t.taskId == start.taskId
      invariant finalState == LastNonEmpty(outputs[..i])
      invariant written == Snapshots(start, outputs[..i])
      invariant store.tasks == WithRecord(before, start.taskId, t)
    {
      t, finalState, written := ConsumeOne(store, before, start, outputs, i, t, finalState, written);
      i := i + 1;
    }
    assert outputs[..|outputs|] == outputs;
  }

  /** `run_research_workflow` over a registry: applies the outputs one by one,
      writing the record after each non-empty one and at the end. Only the
      task's own entry changes, and only if it is still registered. */
  method RunResearchWorkflow(store: MemoryStore, task: TaskState, outputs: seq<NodeOutput>, raised: Option<string>)
    returns (r: TaskState, ghost written: seq<TaskState>)
    modifies store
    ensures r == Run(task, outputs, raised)
    ensures written == Writes(task, outputs, raised)
    ensures store.tasks ==
      if task.taskId in old(store.tasks) then old(store.tasks)[task.taskId := r] else old(store.tasks)
  {
    ghost var before := store.tasks;
    var t := task;
    t := t.(status := Planning);
    t := t.UpdateProgress("Planning research questions...", 5);
    assert t == Start(task) && t.taskId == task.taskId;
    var _ := store.Update(t.taskId, t);
    FirstWrite(before, task.taskId, t);
    ghost var started := store.tasks;
    var finalState;
    ghost var snapshots;
    t, finalState, snapshots := ConsumeOutputs(store, t, outputs);
    ghost var looped := t;
    WithRecordTwice(before, task.taskId, Start(task), looped);
    t := FinishRun(t, finalState, raised);
    RewriteRecord(before, task.taskId, looped, t);
    var _ := store.Update(t.taskId, t);
    written := [Start(task)] + snapshots + [t];
    r := t;
  }
}
