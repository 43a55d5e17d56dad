/** The records the pipeline passes around: the task record kept in the
    registry, its sub-question units, their citations, the final report,
    and the partial update each pipeline node returns. */
module Models {
  import opened Wrappers

  type TaskId = string

  /** Lifecycle of a task; `Value` is the enum's string value. */
  datatype TaskStatus = Planning | Executing | Publishing | Done | Failed {
    function Value(): string {
      match this
      case Planning => "planning"
      case Executing => "executing"
      case Publishing => "publishing"
      case Done => "done"
      case Failed => "failed"
    }

    predicate IsTerminal() {
      this == Done || this == TaskStatus.Failed
    }
  }

  /** Per-unit status; the source stores it as the strings "pending",
      "processing", "completed" and "failed". */
  datatype UnitStatus = Pending | Processing | Completed | Failed

  datatype Citation = Citation(
    id: string,
    title: string,
    url: string,
    authors: Option<string>,
    date: Option<string>,
    snippet: string)

  /** One sub-question unit; a fresh unit has an empty summary and no sources. */
  datatype SubQuestion = SubQuestion(
    question: string,
    status: UnitStatus,
    summary: string,
    sources: seq<Citation>)

  datatype Report = Report(
    title: string,
    content: string,
    wordCount: nat,
    citations: seq<Citation>)

  datatype TaskState = TaskState(
    taskId: TaskId,
    query: string,
    status: TaskStatus,
    currentStep: string,
    progress: int,
    subQuestions: seq<SubQuestion>,
    report: Option<Report>,
    error: Option<string>)
  {
    /** Sets the step text and the percentage, with no clamping. */
    function UpdateProgress(step: string, pct: int): TaskState {
      this.(currentStep := step, progress := pct)
    }
  }

  /** The dictionary a pipeline node returns: a key the node leaves out is `None`. */
  datatype NodeOutput = NodeOutput(
    status: Option<string>,
    currentStep: Option<string>,
    progress: Option<int>,
    subQuestions: Option<seq<SubQuestion>>,
    report: Option<Report>,
    error: Option<string>)
  {
    /** `not node_output`: the dictionary has no keys at all. */
    predicate IsEmpty() {
      status.None? && currentStep.None? && progress.None? && subQuestions.None?
      && report.None? && error.None?
    }
  }

  /** A node output that only reports a failure. */
  function ErrorOutput(error: string, step: string, pct: int): NodeOutput {
    NodeOutput(None, Some(step), Some(pct), None, None, Some(error))
  }

  /** Python truthiness of an optional string: present and non-empty. */
  predicate Truthy(s: Option<string>) {
    s.Some? && s.value != ""
  }

  /** `sum(1 for q in units if q.status == "completed")`. */
  function CountCompleted(units: seq<SubQuestion>): (n: nat)
    ensures n <= |units|
    ensures n == 0 <==> forall i | 0 <= i < |units| :: units[i].status != Completed
    ensures n == |units| <==> forall i | 0 <= i < |units| :: units[i].status == Completed
  {
    if units == [] then 0
    else
      var k := |units| - 1;
      var prefix := units[..k];
      assert forall i | 0 <= i < k :: prefix[i] == units[i];
      CountCompleted(prefix) + (if units[k].status == Completed then 1 else 0)
  }

  /** The count is the number of positions holding a completed unit. */
  lemma {:induction false} CountCompletedIsSize(units: seq<SubQuestion>)
    ensures CountCompleted(units) == |CompletedPositions(units)|
  {
    if units == [] {
      assert CompletedPositions(units) == {};
    } else {
      var k := |units| - 1;
      CountCompletedIsSize(units[..k]);
      CompletedPositionsSnoc(units);
    }
  }

  /** The last unit adds its own position, which is new, when it is completed. */
  lemma CompletedPositionsSnoc(units: seq<SubQuestion>)
    requires units != []
    ensures var k := |units| - 1;
      && k !in CompletedPositions(units[..k])
      && CompletedPositions(units)
         == CompletedPositions(units[..k]) + (if units[k].status == Completed then {k} else {})
  {
    var k := |units| - 1;
    var prefix := units[..k];
    assert forall i | 0 <= i < k :: prefix[i] == units[i];
  }

  /** The positions of the completed units. */
  function CompletedPositions(units: seq<SubQuestion>): set<nat> {
    set i: nat | i < |units| && units[i].status == Completed
  }
}
