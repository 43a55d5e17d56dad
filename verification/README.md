# ScholarSynth research pipeline, modelled in Dafny

ScholarSynth answers a research query in three stages. The **planner** asks a
language model to split the query into sub-questions. The **executor**
researches each sub-question and turns the sources it gets back into
numbered citations. The **publisher** formats the completed summaries,
has the model write a report, and attaches a title, a word count and a
de-duplicated citation list. A **workflow controller** runs the stages in
order, routes between them with two predicates, and folds each stage's partial
output into the task record. It writes that record to an in-memory **task
registry** after every step. HTTP handlers create tasks, report their status,
stream progress events, delete tasks and list them.

This project models that core with one Dafny module per source file:

| module | file | models |
|---|---|---|
| `Text` | `text.dfy` | the Python string operations the code relies on: `strip`, `split()`, `split(sep)`, `join`, `find`, slicing with negative and out-of-range bounds, `replace(p, "")`, decimal formatting |
| `Models` | `models.dfy` | the task record, sub-question units, citations, the report, and the partial output dictionary a node returns |
| `Memory` | `memory.dfy` | the registry, as a class over a map, plus its operations as a state-transition function |
| `GeminiClient` | `gemini_client.dfy` | `call` (empty text is an error; the text is stripped) and the code-fence extraction of `call_json` |
| `Planner`, `Executor`, `Publisher` | `planner.dfy`, `executor.dfy`, `publisher.dfy` | the three nodes |
| `Graph` | `graph.dfy` | the routing predicates, the node sequence the graph produces, and the loop of `run_research_workflow` |
| `Outcomes` | `outcomes.dfy` | how whole runs end |
| `Api` | `api.dfy` | the request handlers |

The language model is not modelled. Its answers are inputs:
- a `PlanReply` for the planner;
- a function from unit position to `Answer` for the executor;
- a `GeminiClient.Response` for the publisher.

The graph's stream is modelled as a sequence of node outputs, optionally
followed by an exception. The progress stream is modelled as the sequence of
record reads it makes.

Some behaviours of the code are easy to miss, and the model keeps them:
- Citation de-duplication keeps each id at the position of its first
  appearance, holding the **last** citation with that id, because it is a
  dict comprehension (`backend/agents/publisher.py:84`).
- An empty plan is a planner success, not a stage failure. The run then
  stops with status PLANNING and no error.
- When every unit fails, the publisher is skipped. The run ends with status
  EXECUTING and no error, not FAILED.
- Citations are collected from every unit that carries sources, whatever its
  status. A failed unit keeps the sources it had before, which is none for a
  unit fresh from the planner.

## Model

| member | source | states |
|---|---|---|
| Text.Strip | backend/llm/gemini_client.py:60 | `str.strip()`: the result is empty iff the text is all Python whitespace; otherwise it starts and ends with non-whitespace; text without surrounding whitespace is unchanged |
| Text.StripTrimsEnds | backend/llm/gemini_client.py:60 | `strip()` keeps a contiguous middle of the text and cuts off only whitespace before and after it |
| Text.Words | backend/agents/publisher.py:88 | `str.split()`: every word is non-empty and free of whitespace |
| Text.WordCountIsWordStarts | backend/agents/publisher.py:88 | the number of words `split()` yields equals the number of positions where a non-space character follows a space or the start |
| Text.SplitOn | backend/agents/publisher.py:92 | `split('\n')` yields at least one piece; no piece contains the separator; every character of a piece comes from the text |
| Text.SplitOnJoinRoundTrip | backend/agents/publisher.py:92 | joining the pieces of `split(sep)` with `sep` gives back the text |
| Text.JoinWithEmpty | backend/agents/publisher.py:36 | `sep.join(parts)` with a non-empty separator is empty iff there is at most one part and every part is empty |
| Text.NatToString | backend/agents/executor.py:45 | decimal digits of a number: non-empty, all digits, no leading zero, one digit iff below 10, and reading the digits back gives the number |
| Text.NatToStringInjective | backend/agents/executor.py:45 | different numbers print differently |
| Text.Find | backend/llm/gemini_client.py:87-88 | `str.find`: -1 iff there is no occurrence at or after `from`; otherwise the first such occurrence |
| Text.ClampIndex | backend/llm/gemini_client.py:89 | Python slice-bound normalisation: a bound within the length is kept, a negative bound counts from the end, one past the end clamps to the length, and one before the start clamps to 0 |
| Text.RemoveAll | backend/agents/publisher.py:94 | `replace(p, "")` scanning left to right without overlaps: it never lengthens the text and leaves text without `p` unchanged; RemoveAllDropsLeading and RemoveAllKeepsClearPrefix state what it removes and what it keeps |
| Text.RemoveAllDropsLeading | backend/agents/publisher.py:94 | an occurrence at the front is removed and the scan resumes right after it |
| Text.RemoveAllKeepsClearPrefix | backend/agents/publisher.py:94 | a prefix in which no occurrence starts is kept unchanged in front of the rest's result |
| Text.RemoveAllClearUpTo | backend/agents/publisher.py:94 | the first `i` characters pass through unchanged when no occurrence starts among them |
| Text.SplitOnNoSep | backend/agents/publisher.py:92 | a text without the separator splits into itself alone |
| Text.SplitOnFirstLine | backend/agents/publisher.py:92 | splitting a line, a separator and a rest gives the line followed by the pieces of the rest |
| Text.UnlinesSnoc | backend/agents/publisher.py:26-31 | appending `line + "\n"` to the text of some lines gives the text of those lines followed by `line` |
| Text.SplitUnlines | backend/agents/publisher.py:26-31 | text written as lines each ended by "\n", none containing "\n", splits back into exactly those lines followed by an empty piece |
| Models.CountCompleted | backend/graph.py:47-54 | the number of completed units: zero iff none completed, the full length iff all did |
| Models.CountCompletedIsSize | backend/graph.py:47-54 | the count equals the size of the set of positions holding a completed unit |
| Memory.Apply | backend/memory.py:17-52 | each registry operation's effect: create stores under the task's own id, update changes only a present key, delete removes only the given key, clear empties; keys stay equal to the records' ids |
| Memory.NoResurrection | backend/memory.py:28-42 | after a delete, no sequence of updates, deletes and clears brings the entry back without a create |
| Memory.KeysComeFromCreates | backend/memory.py:17-34 | every key of the registry was present at the start or was put there by a create |
| Memory.MemoryStore.constructor | backend/memory.py:13-15 | the registry starts empty |
| Memory.MemoryStore.Create | backend/memory.py:17-21 | stores the record under its id, overwriting, and returns it |
| Memory.MemoryStore.Get | backend/memory.py:23-26 | the stored record for a present id, `None` for an absent one |
| Memory.MemoryStore.Update | backend/memory.py:28-34 | replaces exactly the entry of a present id and returns the record; an absent id gives `None` and no change |
| Memory.MemoryStore.Delete | backend/memory.py:36-42 | true and removal iff the id was present; otherwise false and no change |
| Memory.MemoryStore.ListAll | backend/memory.py:44-47 | a map equal to the registry's contents |
| Memory.MemoryStore.Clear | backend/memory.py:49-52 | the registry is empty afterwards |
| GeminiClient.Call | backend/llm/gemini_client.py:52-64 | an API error propagates its message; empty text fails with "Empty response from Gemini"; otherwise the stripped text |
| GeminiClient.ExtractJsonText | backend/llm/gemini_client.py:85-93 | the text handed to the JSON parser is never longer than the response, and a response without any fence is passed through unchanged |
| GeminiClient.FencedJsonBlock | backend/llm/gemini_client.py:86-89 | with a json fence, the result is the stripped text between it and the next fence |
| GeminiClient.FencedPlainBlock | backend/llm/gemini_client.py:90-93 | with only plain fences, the result is the stripped text between the first fence and the next |
| GeminiClient.NoJsonFenceInPlainText | backend/llm/gemini_client.py:86 | a text with two plain fences, neither followed by 'j', holds no json fence, so the plain branch is taken |
| GeminiClient.OpeningFence | backend/llm/gemini_client.py:91 | `find` locates the first plain fence right after a backtick-free prefix |
| GeminiClient.JsonBlockClosesAt | backend/llm/gemini_client.py:88-92 | the closing `find` stops at the first fence after a backtick-free body, and the slice between is the body |
| GeminiClient.UnclosedJsonFenceDropsLastChar | backend/llm/gemini_client.py:88-89 | with no closing fence, `find` gives -1 and the slice stops one character short of the end |
| GeminiClient.UnclosedPlainFenceDropsLastChar | backend/llm/gemini_client.py:90-93 | the plain rule has the same defect: with no closing fence the slice stops one character short of the end |
| GeminiClient.NoJsonFenceInUnclosedPlain | backend/llm/gemini_client.py:86 | a text whose only fence is a plain one not followed by 'j' holds no json fence, so the plain branch is taken |
| GeminiClient.JsonFenceTakesPrecedence | backend/llm/gemini_client.py:86-93 | a json fence wins even when a plain fence comes first |
| GeminiClient.JsonFenceAfterGap | backend/llm/gemini_client.py:86-87 | `find` of the json fence skips an earlier plain fence that is not followed by 'json' |
| Planner.PlannerNode | backend/agents/planner.py:22-59 | an error record ("Planner failed: ...", "Planning failed", 0) iff the call raised or the field is missing; otherwise one pending unit per question in order, status "planning", progress 20, and the count in the step text; an empty list is a success |
| Executor.ExecutedUnit | backend/agents/executor.py:24-67 | completed iff answered; on success the summary and one citation per source in order, with ids "S" + (index*3+i+1) and the default title, url and snippet; on failure "Failed to research: " + message, with the sources untouched |
| Executor.ExecuteSingleQuestion | backend/agents/executor.py:11-67 | the unit is marked processing, then built citation by citation, ending as ExecutedUnit says |
| Executor.CitationIdsDistinct | backend/agents/executor.py:45 | ids of source positions below 3 never collide, within a unit or across units |
| Executor.FourthSourceCollides | backend/agents/executor.py:45 | a fourth source of unit 0 and the first of unit 1 are both "S4" |
| Executor.BatchCitationIdsDistinct | backend/agents/executor.py:43-52 | with fresh units and at most three sources per answer, all citation ids of a batch are distinct |
| Executor.ExecutorNode | backend/agents/executor.py:70-111 | an empty unit list gives "No sub-questions to execute" at progress 20; otherwise every unit settled in input order, status "executing", progress 70, and the step text counting the completed units against the total |
| Executor.AllUnansweredNoneCompleted | backend/agents/executor.py:63-67 | when no unit is answered, none completes |
| Publisher.SectionsNumberedByPosition | backend/agents/publisher.py:15-19 | exactly the completed units with a summary get a section, numbered by the unit's 1-based position in the whole list |
| Publisher.EverySectionPresent | backend/agents/publisher.py:15-19 | every completed unit with a summary gets the section numbered by its position |
| Publisher.OnlyNumberedSections | backend/agents/publisher.py:15-19 | every section belongs to such a unit, numbered by its position |
| Publisher.FormattedEmptyIff | backend/agents/publisher.py:11-36 | the formatted text is empty iff no unit is completed with a non-empty summary |
| Publisher.FormatSource | backend/agents/publisher.py:26-32 | appends one source's lines one by one; the result reads back as those lines (see SourceLinesRead), among which an "Authors:" line is present iff the authors are, and a "Date:" line iff the date is |
| Publisher.SourceLinesRead | backend/agents/publisher.py:26-32 | when no field holds a newline, splitting a source's entry at newlines gives back its lines: header, URL, the optional authors and date, snippet, and a blank line |
| Publisher.SourceAuthorsLine | backend/agents/publisher.py:28-29 | a source's entry has a line starting with "  Authors: " iff the source's authors are non-empty |
| Publisher.SourceDateLine | backend/agents/publisher.py:30-31 | a source's entry has a line starting with "  Date: " iff the source's date is non-empty |
| Publisher.SourcesTextConcat | backend/agents/publisher.py:25-32 | the entries of two runs of sources are the entries of the first followed by those of the second |
| Publisher.SourceEntriesInOrder | backend/agents/publisher.py:25-32 | each source's entry sits between the entries of the sources before it and those after it |
| Publisher.FormatSources | backend/agents/publisher.py:24-32 | the loop over a unit's sources builds their entries one after another, in the sources' order (SourcesTextConcat, SourceEntriesInOrder) |
| Publisher.FormatSection | backend/agents/publisher.py:19-32 | builds one unit's section, from which its number can be read back (SectionNumberRecoverable): header, question, summary, and "Sources:" with the entries when there are any |
| Publisher.SectionNumberAt | backend/agents/publisher.py:19 | in a section's text the decimal form of its number follows "\n--- Sub-Question " and is followed by a space |
| Publisher.SectionNumberRecoverable | backend/agents/publisher.py:19 | two equal sections carry the same number |
| Publisher.EligiblePositionsExact | backend/agents/publisher.py:15-17 | the positions that get a section are exactly those of the completed units with a summary, each once, in increasing order |
| Publisher.EligiblePositionsEligible | backend/agents/publisher.py:15-17 | every listed position holds a completed unit with a summary |
| Publisher.EligiblePositionsIncreasing | backend/agents/publisher.py:15 | listed positions strictly increase |
| Publisher.EligiblePositionsComplete | backend/agents/publisher.py:15-17 | every completed unit with a summary has its position listed |
| Publisher.SectionsInUnitOrder | backend/agents/publisher.py:15-34 | the m-th section belongs to the m-th eligible unit, numbered by its 1-based position, so sections follow unit order |
| Publisher.FormatSummaries | backend/agents/publisher.py:11-36 | the sections of the eligible units, joined with newlines |
| Publisher.AllCitations | backend/agents/publisher.py:77-81 | a citation is collected iff it is a source of some unit, whatever the unit's status |
| Publisher.AllCitationsConcat | backend/agents/publisher.py:78-81 | the citations of two runs of units are those of the first followed by those of the second, repeats kept |
| Publisher.AllCitationsAt | backend/agents/publisher.py:78-81 | each unit's sources, in their own order, sit between the citations of the units before it and those after it |
| Publisher.AllCitationsDistinct | backend/agents/publisher.py:77-81 | when no two sources share an id, neither do the collected citations |
| Publisher.IndexOfId | backend/agents/publisher.py:84 | the first position holding an id, or the length when there is none |
| Publisher.Dedup | backend/agents/publisher.py:84-85 | the kept citations have distinct ids, are no more than the input, and all come from it |
| Publisher.DistinctByFirstAppearance | backend/agents/publisher.py:84-85 | the id list after de-duplication holds each id once, nothing else, ordered by first appearance |
| Publisher.DistinctSameValues | backend/agents/publisher.py:84-85 | the distinct ids are exactly the ids of the input |
| Publisher.DistinctNoRepeats | backend/agents/publisher.py:84-85 | the distinct ids hold no id twice |
| Publisher.DistinctInFirstOrder | backend/agents/publisher.py:84-85 | the distinct ids are ordered by their first position in the input |
| Publisher.DedupFirstPlaceLastValue | backend/agents/publisher.py:84-85 | de-duplication keeps one citation per id at the id's first position, holding the last citation with that id |
| Publisher.DedupIdsInFirstOrder | backend/agents/publisher.py:84-85 | the ids kept by de-duplication are the input's ids in order of first appearance |
| Publisher.DedupKeepsLastValue | backend/agents/publisher.py:84-85 | each kept citation is the last one in the input with its id |
| Publisher.DedupOfDistinctIsIdentity | backend/agents/publisher.py:84-85 | citations with distinct ids pass through unchanged |
| Publisher.FirstHeading | backend/agents/publisher.py:92-95 | the first line starting with "# ", with no such line before it |
| Publisher.ExtractTitle | backend/agents/publisher.py:91-95 | scans the lines and stops at the first heading: its text with every "# " removed and stripped, or the query |
| Publisher.FirstHeadingAt | backend/agents/publisher.py:92-95 | a scan that stops at the first line starting with "# ", or at the end, has found the first heading |
| Publisher.HeadingGivesTitle | backend/agents/publisher.py:91-95 | a report opening with "# t" (t without '#') is titled with t stripped |
| Publisher.HeadingLineGivesTitle | backend/agents/publisher.py:91-95 | a report opening with a "# " line is titled with the rest of that line, every "# " in it removed, stripped |
| Publisher.NoHeadingDefaultsToQuery | backend/agents/publisher.py:91-95 | a report none of whose lines starts with "# " is titled with the query |
| Publisher.HashFreeDefaultsToQuery | backend/agents/publisher.py:91-95 | in particular a report without '#' is titled with the query |
| Publisher.NoHashNoHeading | backend/agents/publisher.py:92-93 | a line made of characters of a report without '#' does not start with "# " |
| Publisher.PublisherNode | backend/agents/publisher.py:39-121 | a report iff some unit is eligible and the call succeeds, with the word count of the text, the title, the de-duplicated citations of all units, status "done" and progress 100; otherwise an error record at 80 with step "Report synthesis failed", whose error is "Publisher failed: No completed research to synthesize" when nothing is eligible and "Publisher failed: " + the call's message when the call fails |
| Outcomes.PublisherFailureOutput | backend/agents/publisher.py:116-121 | after the executor, a failing call gives the error record naming the call's message when some answer carried a summary, and "nothing to synthesize" otherwise |
| Graph.ShouldContinueToExecutor | backend/graph.py:25-31 | end iff an error is set or there are no units; otherwise the executor |
| Graph.ShouldContinueToPublisher | backend/graph.py:34-63 | the publisher iff there is no error, there are units and at least one of them completed |
| Graph.GraphOutputs | backend/graph.py:66-108 | the planner's output comes first, followed by at most two more |
| Graph.MapStatus | backend/graph.py:170-181 | "planning", "executing", "publishing" and "done" map to the matching status; any other value, "failed" included, keeps the current one |
| Graph.ApplyOutput | backend/graph.py:169-207 | one pass of the loop body never changes the task's id or query |
| Graph.ApplyOutputEffects | backend/graph.py:169-207 | an error sets FAILED and stores it, and no error keeps the old one; a report sets DONE, progress 100 and "Research complete!"; without a report the status follows the mapped status, progress and step follow the output, or are kept when absent; units are replaced only by a non-empty list |
| Graph.FoldOutputs | backend/graph.py:154-213 | the loop never changes the task's id or query |
| Graph.LastNonEmpty | backend/graph.py:166-213 | the final state is a non-empty output of the stream, and is absent iff every output was empty |
| Graph.LastNonEmptyIsLast | backend/graph.py:166-213 | the final state is the last non-empty output: only empty outputs follow it |
| Graph.Finish | backend/graph.py:215-225 | an error in the final output sets FAILED with progress 0 and "Failed: " + error; with no error, a record holding a report and not yet DONE becomes DONE at 100 with "Research complete!", and any other record is unchanged; with no outputs the record is unchanged |
| Graph.Run | backend/graph.py:115-243 | an exception ends the run FAILED with progress 0 and "Workflow failed: " + message; id and query are kept |
| Graph.WritesCount | backend/graph.py:147-228 | the registry is written once at 5%, once per non-empty output and once at the end, and the last write is the returned record |
| Graph.SnapshotsCount | backend/graph.py:166-210 | one intermediate write per non-empty output |
| Graph.ApplyNodeOutput | backend/graph.py:169-207 | the field-by-field updates of the loop body give ApplyOutput's record |
| Graph.ConsumeOne | backend/graph.py:166-210 | one round of the loop advances the record, the final state and the writes to the next output's prefix, and the registry holds the new record |
| Graph.ConsumeOutputs | backend/graph.py:154-213 | after the loop the record is FoldOutputs of the outputs, the final state is LastNonEmpty, the writes are Snapshots, and only the task's own entry holds the new record |
| Graph.FinishRun | backend/graph.py:215-241 | the post-loop step or the exception handler, as Finish and the handler state |
| Graph.RunResearchWorkflow | backend/graph.py:115-243 | returns Run's record and hands the registry Writes' records in order; only the task's own entry changes, and only if it is still registered |
| Outcomes.PlanApplied | backend/graph.py:169-207 | a successful plan takes a record without error or report to PLANNING at 20% with the planning step text |
| Outcomes.ExecutionApplied | backend/graph.py:169-207 | executing a non-empty list takes such a record to EXECUTING at 70%, holding the settled units and the executor's step text |
| Outcomes.PlannedAndExecuted | backend/graph.py:169-207 | after the planner's and executor's outputs, a fresh task is PLANNING at 20%, then EXECUTING at 70% holding the executed units, with no error |
| Outcomes.EmptyPlanEndsPlanning | backend/graph.py:25-31 | an empty plan stops the run after the planner, with status PLANNING at 20% and no error or report |
| Outcomes.AllUnansweredEndsExecuting | backend/graph.py:34-63 | when no question is answered, the publisher is skipped and the task stays EXECUTING at 70%, every unit failed, no error |
| Outcomes.AllUnansweredStopsAfterExecutor | backend/graph.py:34-63 | with no answered question the graph yields only the planner's and the executor's outputs |
| Outcomes.AllUnansweredRecord | backend/graph.py:169-225 | those two outputs leave the record EXECUTING at 70% with every unit failed and no error |
| Outcomes.PlannerFailureFails | backend/graph.py:216-220 | a planner failure ends FAILED at 0% with step "Failed: Planner failed: ..." |
| Outcomes.PlannerRoutesToExecutor | backend/graph.py:25-31 | a non-empty plan leaves no error and the pending units in the graph state, so the executor runs next |
| Outcomes.ExecutorRoutesToPublisher | backend/graph.py:34-63 | an executor run with an answered unit leaves a completed unit, so the publisher runs next |
| Outcomes.RoutesThroughPublisher | backend/graph.py:66-108 | when any question is answered, the run reaches the publisher |
| Outcomes.RunOfTwo | backend/graph.py:154-225 | a run of two non-empty outputs ends with the post-loop step after both are applied |
| Outcomes.RunOfThree | backend/graph.py:147-228 | a run of three non-empty outputs ends likewise, and the registry sees progress 5, then each output's, then the final one |
| Outcomes.ThroughPublisher | backend/graph.py:147-228 | such a run yields the three nodes' outputs, is EXECUTING at 70% with the settled units before the publisher, and the registry sees progress 5, 20, 70, then the publisher's and the final one |
| Outcomes.SuccessEndsDone | backend/graph.py:198-225 | with an answered question that has a summary and a successful call, the run ends DONE at 100% with the report, its word count, its title and the de-duplicated citations |
| Outcomes.PublisherCallFailureFails | backend/graph.py:205-220 | a failing synthesis call ends the run after three outputs, FAILED at 0% with no report, error "Publisher failed: " + the call's message (or "No completed research to synthesize" when no answer had a summary), and step "Failed: " + that error |
| Outcomes.EmptySummariesFailAndProgressDrops | backend/graph.py:205-220 | answers with only empty summaries lead to "nothing to synthesize": the run fails, and the registry sees progress 5, 20, 70, 80, then 0 |
| Outcomes.FewSourcesKeepAllCitations | backend/agents/publisher.py:84-85 | with at most three sources per answer, de-duplication drops no citation |
| Api.InitialTask | backend/main.py:84-90 | a new task is PLANNING at 0% with step "Initializing research workflow...", no units, report or error |
| Api.CreateReport | backend/main.py:66-106 | the task is registered under its id before the run, and after the run the registry holds the run's final record there |
| Api.GetReportStatus | backend/main.py:109-134 | not found iff the id is absent; otherwise the unit count and the completed count, never more than the unit count |
| Api.GetReport | backend/main.py:137-154 | not found iff the id is absent; otherwise the whole record |
| Api.EventGenerator | backend/main.py:173-205 | the loop sends exactly the events StreamEvents defines for the reads, starting from progress -1, and stops where the stream closes |
| Api.PollRound | backend/main.py:179-202 | one read closes the stream iff the task is gone or finished, and the events so far plus the rest of the stream stay the events the whole stream gives |
| Api.StreamShape | backend/main.py:175-202 | every event but the last is a snapshot; consecutive snapshots differ in progress; the first differs from the start value; the stream closes iff some read finds the task finished or gone |
| Api.FirstReadSent | backend/main.py:175-197 | the first read of a task with non-negative progress is always sent |
| Api.StreamReportProgress | backend/main.py:157-171 | not found iff the id is unknown at the start; otherwise the generator's events |
| Api.DeleteReport | backend/main.py:218-234 | not found iff the id was absent; afterwards it is absent |
| Api.SummarizeAll | backend/main.py:247-257 | one summary per entry of the snapshot, each the summary of its own record (has_report iff the report is present), every id covered, no id twice |
| Api.ListReports | backend/main.py:237-259 | the listing is a permutation of the registry: one summary per registered task, each for a different id, every task covered, and the count equal to the number of tasks |

## Left out

- LangGraph (`StateGraph`, the edges, `compile`, `astream`): the run is a sequence of node outputs routed by the two predicates (`Graph.GraphOutputs`).
- The registry's lock and the thread-safety it gives: each registry method is one atomic step.
- Concurrency: the executor's parallel `gather` is a sequence comprehension, and the background task runs to completion inside `CreateReport`. A delete during a run, and reads interleaved with the run, are therefore not modelled. The stream's reads are an input sequence.
- `asyncio.sleep` polling: the stream is modelled by the reads it makes, not by time.
- Aliasing of the mutable records: the registry holds the same `TaskState` object the workflow mutates, and the executor mutates the planner's units in place. The model passes values, and a change becomes visible only through the next registry write.
- The order of `list_reports`' dict iteration: the listing is shown to be a permutation of the registry, not in insertion order.
- `created_at` and `generated_at` timestamps, UUID generation, `print` logging.
- The Gemini API calls, the client setup, the `get_gemini_client` singleton, temperature and token limits, and the prompt templates (`prompts.py` is not part of this model). The model's answers are inputs.
- `json.loads`: a planner reply is either parsed (with or without the field) or raised, and an executor answer is either a parsed answer or a failure.
- The executor node's outer `except` (progress 40): every per-question failure is caught inside `execute_single_question`, so no exception reaches it.
- The health-check endpoint, FastAPI plumbing, SSE byte framing, `json.dumps`, CORS and environment setup.
- Graph.Run: an exception is modelled as raised between two node outputs (or before the first, or after the last); one raised part-way through applying an output to the record, or by a registry write itself, is not modelled.
- Models.NodeOutput: a key present with value `None` is not told apart from a missing key; no node returns one.
- Executor.ExecutedUnit: authors and date are kept as optional text, not as lists; a non-dictionary source or a `null` summary (which would raise) is not modelled.
