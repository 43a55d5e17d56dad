/** The execute stage: answers every unit with the model and numbers the
    citations. The concurrent batch keeps input order, so it is a map over
    the units here. */
module Executor {
  import opened Wrappers
  import opened Text
  import opened Models

  /** One entry of the reply's "sources" list; a missing key is `None`. */
  datatype SourceData = SourceData(
    title: Option<string>,
    url: Option<string>,
    authors: Option<string>,
    date: Option<string>,
    snippet: Option<string>)

  /** What the research request for one unit produced: the reply's "summary"
      (`None` when missing) and "sources", or the message of the error raised. */
  datatype Answer = Answered(summary: Option<string>, sources: seq<SourceData>) | Unanswered(message: string)

  /** Id of source `i` of the unit at `index`: "S" followed by `index*3 + i + 1`. */
  function CitationId(index: nat, i: nat): string {
    "S" + NatToString(index * 3 + i + 1)
  }

  /** Missing fields default to "Unknown Title", "" and ""; authors and date stay optional. */
  function ToCitation(index: nat, i: nat, src: SourceData): Citation {
    Citation(CitationId(index, i), src.title.GetOr("Unknown Title"), src.url.GetOr(""),
             src.authors, src.date, src.snippet.GetOr(""))
  }

  function Citations(index: nat, sources: seq<SourceData>): seq<Citation> {
    seq(|sources|, i requires 0 <= i < |sources| => ToCitation(index, i, sources[i]))
  }

  const FailurePrefix := "Failed to research: "

  /** The unit after `execute_single_question`: completed with the summary and
      one citation per source, in order, or failed with the error as summary
      and its sources untouched. */
  function ExecutedUnit(q: SubQuestion, index: nat, answer: Answer): (r: SubQuestion)
    ensures r.question == q.question
    ensures r.status == Completed <==> answer.Answered?
    ensures r.status == Completed || r.status == UnitStatus.Failed
    ensures answer.Answered? ==>
      && r.summary == answer.summary.GetOr("")
      && |r.sources| == |answer.sources|
      && forall i | 0 <= i < |r.sources| ::
           r.sources[i].id == CitationId(index, i) && r.sources[i] == ToCitation(index, i, answer.sources[i])
    ensures answer.Unanswered? ==> r.summary == FailurePrefix + answer.message && r.sources == q.sources
  {
    match answer
    case Answered(summary, sources) =>
      q.(status := Completed, summary := summary.GetOr(""), sources := Citations(index, sources))
    case Unanswered(msg) =>
      q.(status := UnitStatus.Failed, summary := FailurePrefix + msg)
  }

  /** `execute_single_question`: marks the unit processing, then builds its
      citations one source at a time. */
  method ExecuteSingleQuestion(q: SubQuestion, index: nat, answer: Answer) returns (r: SubQuestion)
    ensures r == ExecutedUnit(q, index, answer)
  {
    r := q.(status := Processing);
    match answer {
      case Unanswered(msg) =>
        r := r.(status := UnitStatus.Failed, summary := FailurePrefix + msg);
      case Answered(summary, sources) =>
        var citations: seq<Citation> := [];
        var i := 0;
        while i < |sources|
          invariant 0 <= i <= |sources|
          invariant |citations| == i
          invariant forall k | 0 <= k < i :: citations[k] == ToCitation(index, k, sources[k])
        {
          citations := citations + [ToCitation(index, i, sources[i])];
          i := i + 1;
        }
        r := r.(summary := summary.GetOr(""), sources := citations, status := Completed);
    }
  }

  /** Ids of sources 0..2 never collide, within a unit or across units. */
  lemma CitationIdsDistinct(a: nat, i: nat, b: nat, j: nat)
    requires i < 3 && j < 3 && (a != b || i != j)
    ensures CitationId(a, i) != CitationId(b, j)
  {
    assert CitationId(a, i)[1..] == NatToString(a * 3 + i + 1);
    assert CitationId(b, j)[1..] == NatToString(b * 3 + j + 1);
  }

  /** A fourth source collides: source 3 of unit 0 and source 0 of unit 1 are both "S4". */
  lemma FourthSourceCollides()
    ensures CitationId(0, 3) == CitationId(1, 0) == "S4"
  {
  }

  /** The batch: unit `i` is answered by `answers(i)`, and the results keep the input order. */
  function ExecutedUnits(units: seq<SubQuestion>, answers: nat -> Answer): seq<SubQuestion> {
    seq(|units|, i requires 0 <= i < |units| => ExecutedUnit(units[i], i, answers(i)))
  }

  const NoQuestionsMessage := "No sub-questions to execute"

  function ExecutionStep(successful: nat, total: nat): string {
    "Research complete - " + NatToString(successful) + "/" + NatToString(total) + " questions answered"
  }

  /** `executor_node`: an error record for an empty list; otherwise every unit
      settled, in input order, with the count of completed ones in the step text. */
  function ExecutorNode(units: seq<SubQuestion>, answers: nat -> Answer): (out: NodeOutput)
    ensures units == [] ==> out == ErrorOutput(NoQuestionsMessage, "Execution failed - no questions", 20)
    ensures units != [] ==>
      && out.subQuestions.Some?
      && var done := out.subQuestions.value;
      && |done| == |units|
      && (forall i | 0 <= i < |units| ::
            && done[i] == ExecutedUnit(units[i], i, answers(i))
            && done[i].question == units[i].question
            && (done[i].status == Completed <==> answers(i).Answered?)
            && (done[i].status == Completed || done[i].status == UnitStatus.Failed))
      && out.status == Some("executing")
      && out.progress == Some(70)
      && out.currentStep == Some(ExecutionStep(CountCompleted(done), |units|))
      && out.error == None && out.report == None
  {
    if units == [] then
      ErrorOutput(NoQuestionsMessage, "Execution failed - no questions", 20)
    else
      var done := ExecutedUnits(units, answers);
      assert forall i | 0 <= i < |units| :: done[i] == ExecutedUnit(units[i], i, answers(i));
      NodeOutput(Some("executing"), Some(ExecutionStep(CountCompleted(done), |units|)), Some(70),
                 Some(done), None, None)
  }

  /** Every unit the model did not answer fails, so none completes. */
  lemma {:induction false} AllUnansweredNoneCompleted(units: seq<SubQuestion>, answers: nat -> Answer)
    requires forall i | 0 <= i < |units| :: answers(i).Unanswered?
    ensures CountCompleted(ExecutedUnits(units, answers)) == 0
  {
    var done := ExecutedUnits(units, answers);
    assert forall i | 0 <= i < |done| :: done[i].status != Completed;
  }

  /** With fresh units and at most three sources per answer, all citation ids
      of the batch are pairwise distinct. */
  lemma {:induction false} BatchCitationIdsDistinct(units: seq<SubQuestion>, answers: nat -> Answer)
    requires forall i | 0 <= i < |units| :: units[i].sources == []
    requires forall i | 0 <= i < |units| :: answers(i).Answered? ==> |answers(i).sources| <= 3
    ensures var done := ExecutedUnits(units, answers);
      forall a, i, b, j |
        0 <= a < |done| && 0 <= b < |done| && 0 <= i < |done[a].sources| && 0 <= j < |done[b].sources|
        && (a != b || i != j) :: done[a].sources[i].id != done[b].sources[j].id
  {
    var done := ExecutedUnits(units, answers);
    forall a, i, b, j |
      0 <= a < |done| && 0 <= b < |done| && 0 <= i < |done[a].sources| && 0 <= j < |done[b].sources|
      && (a != b || i != j)
      ensures done[a].sources[i].id != done[b].sources[j].id
    {
      assert done[a] == ExecutedUnit(units[a], a, answers(a));
      assert done[b] == ExecutedUnit(units[b], b, answers(b));
      CitationIdsDistinct(a, i, b, j);
    }
  }
}
