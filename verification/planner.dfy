/** The plan stage: turns the model's reply into pending sub-question units,
    or into an error record. */
module Planner {
  import opened Wrappers
  import opened Text
  import opened Models

  /** What the planning request produced: the parsed reply's "sub_questions"
      field (`None` when the field is missing), or the message of the error
      the model call or the JSON parser raised. */
  datatype PlanReply = Parsed(subQuestions: Option<seq<string>>) | Raised(message: string)

  const MissingFieldMessage := "Response missing 'sub_questions' field"

  function PendingUnit(question: string): SubQuestion {
    SubQuestion(question, Pending, "", [])
  }

  function PendingUnits(qs: seq<string>): seq<SubQuestion> {
    seq(|qs|, i requires 0 <= i < |qs| => PendingUnit(qs[i]))
  }

  function PlanningCompleteStep(n: nat): string {
    "Planning complete - " + NatToString(n) + " research questions generated"
  }

  /** `planner_node`: one pending unit per returned question, in order, or an
      error record when the call failed or the field is missing. An empty
      question list is a success. */
  function PlannerNode(reply: PlanReply): (out: NodeOutput)
    ensures Truthy(out.error) <==> !(reply.Parsed? && reply.subQuestions.Some?)
    ensures reply.Parsed? && reply.subQuestions.Some? ==>
      var qs := reply.subQuestions.value;
      && out.subQuestions == Some(PendingUnits(qs))
      && |out.subQuestions.value| == |qs|
      && (forall i | 0 <= i < |qs| ::
            out.subQuestions.value[i].question == qs[i]
            && out.subQuestions.value[i].status == Pending
            && out.subQuestions.value[i].summary == ""
            && out.subQuestions.value[i].sources == [])
      && out.status == Some("planning")
      && out.progress == Some(20)
      && out.currentStep == Some(PlanningCompleteStep(|qs|))
      && out.error == None && out.report == None
    ensures !(reply.Parsed? && reply.subQuestions.Some?) ==>
      && out.error == Some("Planner failed: " + (if reply.Raised? then reply.message else MissingFieldMessage))
      && out.currentStep == Some("Planning failed")
      && out.progress == Some(0)
      && out.status == None && out.subQuestions == None && out.report == None
  {
    match reply
    case Raised(msg) => ErrorOutput("Planner failed: " + msg, "Planning failed", 0)
    case Parsed(None) => ErrorOutput("Planner failed: " + MissingFieldMessage, "Planning failed", 0)
    case Parsed(Some(qs)) =>
      var units := PendingUnits(qs);
      NodeOutput(Some("planning"), Some(PlanningCompleteStep(|units|)), Some(20), Some(units), None, None)
  }
}
