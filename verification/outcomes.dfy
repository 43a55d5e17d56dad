/** End states of a whole run: the planner, executor and publisher outputs
    routed as the graph routes them, folded into a freshly created task. */
module Outcomes {
  import opened Wrappers
  import opened Text
  import opened Models
  import opened Planner
  import opened Executor
  import opened GeminiClient
  import opened Publisher
  import opened Graph

  /** A task as it is registered before the run: no report and no error yet. */
  predicate Fresh(task: TaskState) {
    task.report == None && task.error == None
  }

  /** The progress values the registry sees, in order. */
  function ProgressTrail(ws: seq<TaskState>): seq<int> {
    seq(|ws|, i requires 0 <= i < |ws| => ws[i].progress)
  }

  lemma FoldOne(t: TaskState, o1: NodeOutput)
    requires !o1.IsEmpty()
    ensures FoldOutputs(t, [o1]) == ApplyOutput(t, o1)
    ensures LastNonEmpty([o1]) == Some(o1)
    ensures Snapshots(t, [o1]) == [ApplyOutput(t, o1)]
  {
    var outs := [o1];
    assert outs[..0] == [] && outs[..1] == outs;
    StepFacts(t, outs, 0);
  }

  lemma FoldTwo(t: TaskState, o1: NodeOutput, o2: NodeOutput)
    requires !o1.IsEmpty() && !o2.IsEmpty()
    ensures FoldOutputs(t, [o1, o2]) == ApplyOutput(ApplyOutput(t, o1), o2)
    ensures LastNonEmpty([o1, o2]) == Some(o2)
    ensures Snapshots(t, [o1, o2]) == [ApplyOutput(t, o1), ApplyOutput(ApplyOutput(t, o1), o2)]
  {
    var outs := [o1, o2];
    assert outs[..0] == [] && outs[..2] == outs;
    StepFacts(t, outs, 0);
    StepFacts(t, outs, 1);
  }

  lemma FoldThree(t: TaskState, o1: NodeOutput, o2: NodeOutput, o3: NodeOutput)
    requires !o1.IsEmpty() && !o2.IsEmpty() && !o3.IsEmpty()
    ensures FoldOutputs(t, [o1, o2, o3]) == ApplyOutput(ApplyOutput(ApplyOutput(t, o1), o2), o3)
    ensures LastNonEmpty([o1, o2, o3]) == Some(o3)
    ensures Snapshots(t, [o1, o2, o3]) ==
      [ApplyOutput(t, o1), ApplyOutput(ApplyOutput(t, o1), o2), ApplyOutput(ApplyOutput(ApplyOutput(t, o1), o2), o3)]
  {
    var outs := [o1, o2, o3];
    assert outs[..0] == [] && outs[..3] == outs;
    StepFacts(t, outs, 0);
    StepFacts(t, outs, 1);
    StepFacts(t, outs, 2);
  }

  /** The records after the planner's output and after the executor's. */
  lemma PlannedAndExecuted(task: TaskState, qs: seq<string>, answers: nat -> Answer)
    requires Fresh(task) && qs != []
    ensures var o1 := PlannerNode(Parsed(Some(qs)));
      var t1 := ApplyOutput(Start(task), o1);
      var o2 := ExecutorNode(PendingUnits(qs), answers);
      var t2 := ApplyOutput(t1, o2);
      && !o1.IsEmpty() && !o2.IsEmpty()
      && t1.status == Planning && t1.progress == 20 && t1.error == None && t1.report == None
      && t2.status == Executing && t2.progress == 70 && t2.error == None && t2.report == None
      && t2.subQuestions == ExecutedUnits(PendingUnits(qs), answers)
  {
    PlanApplied(Start(task), qs);
    ExecutionApplied(ApplyOutput(Start(task), PlannerNode(Parsed(Some(qs)))), PendingUnits(qs), answers);
  }

  /** A successful plan moves a record without error or report to PLANNING at 20%. */
  lemma PlanApplied(t: TaskState, qs: seq<string>)
    requires t.error == None && t.report == None
    ensures var o1 := PlannerNode(Parsed(Some(qs)));
      var t1 := ApplyOutput(t, o1);
      && !o1.IsEmpty()
      && t1.status == Planning && t1.progress == 20 && t1.error == None && t1.report == None
      && t1.currentStep == PlanningCompleteStep(|qs|)
  {
    var o1 := PlannerNode(Parsed(Some(qs)));
    ApplyOutputEffects(t, o1);
  }

  /** Executing a non-empty list moves a record without error or report to
      EXECUTING at 70%, holding the settled units. */
  lemma ExecutionApplied(t: TaskState, units: seq<SubQuestion>, answers: nat -> Answer)
    requires t.error == None && t.report == None && units != []
    ensures var o2 := ExecutorNode(units, answers);
      var t2 := ApplyOutput(t, o2);
      var done := ExecutedUnits(units, answers);
      && !o2.IsEmpty()
      && t2.status == Executing && t2.progress == 70 && t2.error == None && t2.report == None
      && t2.subQuestions == done
      && t2.currentStep == ExecutionStep(CountCompleted(done), |units|)
  {
    var o2 := ExecutorNode(units, answers);
    var done := ExecutedUnits(units, answers);
    assert o2.subQuestions == Some(done);
    ApplyOutputEffects(t, o2);
  }

  /** An empty plan is not an error: the run stops after the planner and the
      task stays PLANNING at 20%, with no error and no report. */
  lemma EmptyPlanEndsPlanning(task: TaskState, answers: nat -> Answer, pub: Response)
    requires Fresh(task)
    ensures var outs := GraphOutputs(task.query, Parsed(Some([])), answers, pub);
      var r := Run(task, outs, None);
      && |outs| == 1
      && r.status == Planning && !r.status.IsTerminal()
      && r.progress == 20 && r.currentStep == PlanningCompleteStep(0)
      && r.error == None && r.report == None
  {
    var o1 := PlannerNode(Parsed(Some([])));
    var outs := GraphOutputs(task.query, Parsed(Some([])), answers, pub);
    assert Merge(InitialGraphState(task.query), o1).subQuestions == [];
    assert outs == [o1];
    FoldOne(Start(task), o1);
  }

  /** With no answered unit the routing stops after the executor. */
  lemma AllUnansweredStopsAfterExecutor(query: string, qs: seq<string>, answers: nat -> Answer, pub: Response)
    requires qs != []
    requires forall i | 0 <= i < |qs| :: answers(i).Unanswered?
    ensures GraphOutputs(query, Parsed(Some(qs)), answers, pub) ==
      [PlannerNode(Parsed(Some(qs))), ExecutorNode(PendingUnits(qs), answers)]
  {
    var units := PendingUnits(qs);
    PlannerRoutesToExecutor(query, qs);
    var g1 := Merge(InitialGraphState(query), PlannerNode(Parsed(Some(qs))));
    var o2 := ExecutorNode(units, answers);
    assert o2.subQuestions == Some(ExecutedUnits(units, answers));
    AllUnansweredNoneCompleted(units, answers);
    assert ShouldContinueToPublisher(Merge(g1, o2)) == End;
  }

  /** When the model answers none of the questions, the publisher is skipped
      and the task stays EXECUTING at 70% with every unit failed and no error. */
  lemma AllUnansweredEndsExecuting(task: TaskState, qs: seq<string>, answers: nat -> Answer, pub: Response)
    requires Fresh(task) && qs != []
    requires forall i | 0 <= i < |qs| :: answers(i).Unanswered?
    ensures var outs := GraphOutputs(task.query, Parsed(Some(qs)), answers, pub);
      var r := Run(task, outs, None);
      && |outs| == 2
      && r.status == Executing && !r.status.IsTerminal()
      && r.progress == 70 && r.currentStep == ExecutionStep(0, |qs|)
      && r.error == None && r.report == None
      && |r.subQuestions| == |qs|
      && forall i | 0 <= i < |qs| :: r.subQuestions[i].status == UnitStatus.Failed
  {
    AllUnansweredStopsAfterExecutor(task.query, qs, answers, pub);
    AllUnansweredRecord(task, qs, answers);
  }

  /** The record after the planner's and the executor's outputs when no question is answered. */
  lemma AllUnansweredRecord(task: TaskState, qs: seq<string>, answers: nat -> Answer)
    requires Fresh(task) && qs != []
    requires forall i | 0 <= i < |qs| :: answers(i).Unanswered?
    ensures var r := Run(task, [PlannerNode(Parsed(Some(qs))), ExecutorNode(PendingUnits(qs), answers)], None);
      && r.status == Executing && !r.status.IsTerminal()
      && r.progress == 70 && r.currentStep == ExecutionStep(0, |qs|)
      && r.error == None && r.report == None
      && |r.subQuestions| == |qs|
      && forall i | 0 <= i < |qs| :: r.subQuestions[i].status == UnitStatus.Failed
  {
    var units := PendingUnits(qs);
    var o1 := PlannerNode(Parsed(Some(qs)));
    var o2 := ExecutorNode(units, answers);
    PlanApplied(Start(task), qs);
    ExecutionApplied(ApplyOutput(Start(task), o1), units, answers);
    AllUnansweredNoneCompleted(units, answers);
    RunOfTwo(task, o1, o2);
    var done := ExecutedUnits(units, answers);
    assert forall i | 0 <= i < |qs| :: done[i].status == UnitStatus.Failed;
  }

  /** A planner failure, or a reply without the field, ends the run FAILED at
      0% with the planner's message behind "Failed: ". */
  lemma PlannerFailureFails(task: TaskState, plan: PlanReply, answers: nat -> Answer, pub: Response)
    requires !(plan.Parsed? && plan.subQuestions.Some?)
    ensures var outs := GraphOutputs(task.query, plan, answers, pub);
      var r := Run(task, outs, None);
      var message := "Planner failed: " + (if plan.Raised? then plan.message else MissingFieldMessage);
      && |outs| == 1
      && r.status == TaskStatus.Failed && r.error == Some(message)
      && r.progress == 0 && r.currentStep == "Failed: " + message
  {
    var o1 := PlannerNode(plan);
    var outs := GraphOutputs(task.query, plan, answers, pub);
    assert outs == [o1];
    FoldOne(Start(task), o1);
  }

  /** A non-empty plan routes to the executor with the pending units. */
  lemma PlannerRoutesToExecutor(query: string, qs: seq<string>)
    requires qs != []
    ensures var g1 := Merge(InitialGraphState(query), PlannerNode(Parsed(Some(qs))));
      && g1.subQuestions == PendingUnits(qs) && g1.error == None && g1.query == query
      && ShouldContinueToExecutor(g1) == ToExecutor
  {
  }

  /** An executor run with some answered unit routes to the publisher. */
  lemma ExecutorRoutesToPublisher(g1: GraphState, answers: nat -> Answer)
    requires g1.error == None && g1.subQuestions != []
    requires exists i | 0 <= i < |g1.subQuestions| :: answers(i).Answered?
    ensures var g2 := Merge(g1, ExecutorNode(g1.subQuestions, answers));
      && g2.subQuestions == ExecutedUnits(g1.subQuestions, answers) && g2.query == g1.query
      && ShouldContinueToPublisher(g2) == ToPublisher
  {
    var o2 := ExecutorNode(g1.subQuestions, answers);
    var done := ExecutedUnits(g1.subQuestions, answers);
    assert o2.subQuestions == Some(done);
    var i :| 0 <= i < |g1.subQuestions| && answers(i).Answered?;
    assert done[i].status == Completed;
  }

  /** With some answered unit, the routing reaches the publisher. */
  lemma RoutesThroughPublisher(query: string, qs: seq<string>, answers: nat -> Answer, pub: Response)
    requires qs != []
    requires exists i | 0 <= i < |qs| :: answers(i).Answered?
    ensures GraphOutputs(query, Parsed(Some(qs)), answers, pub) ==
      [PlannerNode(Parsed(Some(qs))), ExecutorNode(PendingUnits(qs), answers),
       PublisherNode(query, ExecutedUnits(PendingUnits(qs), answers), pub)]
  {
    PlannerRoutesToExecutor(query, qs);
    var g1 := Merge(InitialGraphState(query), PlannerNode(Parsed(Some(qs))));
    assert |g1.subQuestions| == |qs|;
    ExecutorRoutesToPublisher(g1, answers);
  }

  /** Two non-empty outputs: the run ends with `Finish` after both applications. */
  lemma RunOfTwo(task: TaskState, o1: NodeOutput, o2: NodeOutput)
    requires !o1.IsEmpty() && !o2.IsEmpty()
    ensures Run(task, [o1, o2], None) == Finish(ApplyOutput(ApplyOutput(Start(task), o1), o2), Some(o2))
  {
    FoldTwo(Start(task), o1, o2);
  }

  /** Three non-empty outputs: the final record, and the progress of every write. */
  lemma RunOfThree(task: TaskState, o1: NodeOutput, o2: NodeOutput, o3: NodeOutput)
    requires !o1.IsEmpty() && !o2.IsEmpty() && !o3.IsEmpty()
    ensures var t1 := ApplyOutput(Start(task), o1);
      var t2 := ApplyOutput(t1, o2);
      var t3 := ApplyOutput(t2, o3);
      var r := Finish(t3, Some(o3));
      && Run(task, [o1, o2, o3], None) == r
      && ProgressTrail(Writes(task, [o1, o2, o3], None)) == [5, t1.progress, t2.progress, t3.progress, r.progress]
  {
    var t1 := ApplyOutput(Start(task), o1);
    var t2 := ApplyOutput(t1, o2);
    var t3 := ApplyOutput(t2, o3);
    FoldThree(Start(task), o1, o2, o3);
    var r := Run(task, [o1, o2, o3], None);
    assert Writes(task, [o1, o2, o3], None) == [Start(task), t1, t2, t3, r];
    TrailOfFive(Start(task), t1, t2, t3, r);
  }

  /** The steps through the publisher, shared by the three-output outcomes. */
  lemma ThroughPublisher(task: TaskState, qs: seq<string>, answers: nat -> Answer, pub: Response)
    requires Fresh(task) && qs != []
    requires exists i | 0 <= i < |qs| :: answers(i).Answered?
    ensures var done := ExecutedUnits(PendingUnits(qs), answers);
      var o1 := PlannerNode(Parsed(Some(qs)));
      var o2 := ExecutorNode(PendingUnits(qs), answers);
      var o3 := PublisherNode(task.query, done, pub);
      var t2 := ApplyOutput(ApplyOutput(Start(task), o1), o2);
      var outs := GraphOutputs(task.query, Parsed(Some(qs)), answers, pub);
      var t3 := ApplyOutput(t2, o3);
      && outs == [o1, o2, o3]
      && t2.status == Executing && t2.progress == 70 && t2.error == None && t2.report == None && t2.subQuestions == done
      && Run(task, outs, None) == Finish(t3, Some(o3))
      && ProgressTrail(Writes(task, outs, None)) == [5, 20, 70, t3.progress, Finish(t3, Some(o3)).progress]
  {
    var done := ExecutedUnits(PendingUnits(qs), answers);
    var o1 := PlannerNode(Parsed(Some(qs)));
    var o2 := ExecutorNode(PendingUnits(qs), answers);
    var o3 := PublisherNode(task.query, done, pub);
    RoutesThroughPublisher(task.query, qs, answers, pub);
    PlannedAndExecuted(task, qs, answers);
    assert !o3.IsEmpty();
    RunOfThree(task, o1, o2, o3);
  }

  /** A run where some answer has a non-empty summary and the synthesis call
      succeeds ends DONE at 100% with the report and no error. */
  lemma SuccessEndsDone(task: TaskState, qs: seq<string>, answers: nat -> Answer, pub: Response)
    requires Fresh(task) && qs != []
    requires exists i | 0 <= i < |qs| :: answers(i).Answered? && answers(i).summary.GetOr("") != ""
    requires Call(pub).Success?
    ensures var outs := GraphOutputs(task.query, Parsed(Some(qs)), answers, pub);
      var r := Run(task, outs, None);
      var done := ExecutedUnits(PendingUnits(qs), answers);
      var content := Call(pub).value;
      && |outs| == 3
      && r.status == Done && r.progress == 100 && r.currentStep == "Research complete!"
      && r.error == None && r.subQuestions == done
      && r.report.Some?
      && r.report.value.content == content
      && r.report.value.wordCount == WordStarts(content, true)
      && r.report.value.citations == Dedup(AllCitations(done))
      && r.report.value.title == Title(content, task.query)
  {
    var done := ExecutedUnits(PendingUnits(qs), answers);
    var i :| 0 <= i < |qs| && answers(i).Answered? && answers(i).summary.GetOr("") != "";
    assert Eligible(done[i]);
    ThroughPublisher(task, qs, answers, pub);
    var t2 := ApplyOutput(ApplyOutput(Start(task), PlannerNode(Parsed(Some(qs)))), ExecutorNode(PendingUnits(qs), answers));
    ApplyOutputEffects(t2, PublisherNode(task.query, done, pub));
  }

  /** A failing synthesis call ends the run FAILED at 0% with the publisher's
      message: the call's error when some answer has a summary, and
      "nothing to synthesize" when none has. */
  lemma PublisherCallFailureFails(task: TaskState, qs: seq<string>, answers: nat -> Answer, pub: Response)
    requires Fresh(task) && qs != []
    requires exists i | 0 <= i < |qs| :: answers(i).Answered?
    requires Call(pub).Failure?
    ensures var outs := GraphOutputs(task.query, Parsed(Some(qs)), answers, pub);
      var r := Run(task, outs, None);
      var summarized := exists i | 0 <= i < |qs| :: answers(i).Answered? && answers(i).summary.GetOr("") != "";
      var message := "Publisher failed: " + (if summarized then Call(pub).error else NothingToSynthesize);
      && |outs| == 3
      && r.status == TaskStatus.Failed && r.progress == 0 && r.report == None
      && r.error == Some(message)
      && r.currentStep == "Failed: " + message
  {
    var done := ExecutedUnits(PendingUnits(qs), answers);
    PublisherFailureOutput(task.query, qs, answers, pub);
    ThroughPublisher(task, qs, answers, pub);
    var t2 := ApplyOutput(ApplyOutput(Start(task), PlannerNode(Parsed(Some(qs)))), ExecutorNode(PendingUnits(qs), answers));
    ApplyOutputEffects(t2, PublisherNode(task.query, done, pub));
  }

  /** The publisher's output when the synthesis call fails. */
  lemma PublisherFailureOutput(query: string, qs: seq<string>, answers: nat -> Answer, pub: Response)
    requires Call(pub).Failure?
    ensures var summarized := exists i | 0 <= i < |qs| :: answers(i).Answered? && answers(i).summary.GetOr("") != "";
      PublisherNode(query, ExecutedUnits(PendingUnits(qs), answers), pub) ==
        ErrorOutput("Publisher failed: " + (if summarized then Call(pub).error else NothingToSynthesize),
                    "Report synthesis failed", 80)
  {
    var done := ExecutedUnits(PendingUnits(qs), answers);
    if exists i | 0 <= i < |qs| :: answers(i).Answered? && answers(i).summary.GetOr("") != "" {
      var i :| 0 <= i < |qs| && answers(i).Answered? && answers(i).summary.GetOr("") != "";
      assert Eligible(done[i]);
    } else {
      assert forall k | 0 <= k < |done| :: !Eligible(done[k]);
    }
  }

  /** Answers that all come back with empty summaries complete their units,
      so the publisher runs but has nothing to synthesize: the run fails, and
      the progress the registry sees climbs to 80 and then drops to 0. */
  lemma EmptySummariesFailAndProgressDrops(task: TaskState, qs: seq<string>, answers: nat -> Answer, pub: Response)
    requires Fresh(task) && qs != []
    requires exists i | 0 <= i < |qs| :: answers(i).Answered?
    requires forall i | 0 <= i < |qs| :: answers(i).Answered? ==> answers(i).summary.GetOr("") == ""
    ensures var outs := GraphOutputs(task.query, Parsed(Some(qs)), answers, pub);
      var r := Run(task, outs, None);
      && r.status == TaskStatus.Failed
      && r.error == Some("Publisher failed: " + NothingToSynthesize)
      && r.progress == 0 && r.report == None
      && ProgressTrail(Writes(task, outs, None)) == [5, 20, 70, 80, 0]
  {
    var units := PendingUnits(qs);
    var done := ExecutedUnits(units, answers);
    assert forall k | 0 <= k < |done| :: !Eligible(done[k]);
    var o3 := PublisherNode(task.query, done, pub);
    assert o3 == ErrorOutput("Publisher failed: " + NothingToSynthesize, "Report synthesis failed", 80);
    ThroughPublisher(task, qs, answers, pub);
    var t2 := ApplyOutput(ApplyOutput(Start(task), PlannerNode(Parsed(Some(qs)))), ExecutorNode(units, answers));
    ApplyOutputEffects(t2, o3);
  }

  lemma TrailOfFive(a: TaskState, b: TaskState, c: TaskState, d: TaskState, e: TaskState)
    ensures ProgressTrail([a, b, c, d, e]) == [a.progress, b.progress, c.progress, d.progress, e.progress]
  {
  }

  /** With at most three sources per answer no citation is lost to
      de-duplication: the report keeps every collected citation. */
  lemma FewSourcesKeepAllCitations(qs: seq<string>, answers: nat -> Answer)
    requires forall i | 0 <= i < |qs| :: answers(i).Answered? ==> |answers(i).sources| <= 3
    ensures var done := ExecutedUnits(PendingUnits(qs), answers);
      Dedup(AllCitations(done)) == AllCitations(done)
  {
    var units := PendingUnits(qs);
    BatchCitationIdsDistinct(units, answers);
    AllCitationsDistinct(ExecutedUnits(units, answers));
    DedupOfDistinctIsIdentity(AllCitations(ExecutedUnits(units, answers)));
  }
}
