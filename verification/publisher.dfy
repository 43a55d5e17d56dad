/** The publish stage: formats the completed units for the synthesis prompt,
    and turns the model's report text into a report with title, word count
    and de-duplicated citations. */
module Publisher {
  import opened Wrappers
  import opened Text
  import opened Models
  import opened GeminiClient

  /** A unit gets a section only if it completed with a non-empty summary. */
  predicate Eligible(q: SubQuestion) {
    q.status == Completed && q.summary != ""
  }

  const AuthorsLabel := "  Authors: "
  const DateLabel := "  Date: "

  /** The lines of one source's entry: "Authors:" and "Date:" only when
      present, and a blank line at the end. */
  function SourceLines(c: Citation): seq<string> {
    ["- [" + c.id + "] " + c.title, "  URL: " + c.url]
    + (if Truthy(c.authors) then [AuthorsLabel + c.authors.value] else [])
    + (if Truthy(c.date) then [DateLabel + c.date.value] else [])
    + ["  Snippet: " + c.snippet, ""]
  }

  /** One source's entry in the prompt. */
  function SourceText(c: Citation): string {
    Unlines(SourceLines(c))
  }

  /** No field of the source breaks a line. */
  predicate SingleLineFields(c: Citation) {
    && '\n' !in c.id && '\n' !in c.title && '\n' !in c.url && '\n' !in c.snippet
    && (c.authors.Some? ==> '\n' !in c.authors.value)
    && (c.date.Some? ==> '\n' !in c.date.value)
  }

  /** An entry read back line by line gives its lines, then the empty piece
      after the final newline. */
  lemma SourceLinesRead(c: Citation)
    requires SingleLineFields(c)
    ensures SplitOn(SourceText(c), '\n') == SourceLines(c) + [[]]
  {
    var ls := SourceLines(c);
    forall k | 0 <= k < |ls| ensures '\n' !in ls[k] {
      NoNewlineIn(c, ls, k);
    }
    SplitUnlines(ls);
  }

  lemma NoNewlineIn(c: Citation, ls: seq<string>, k: nat)
    requires SingleLineFields(c) && ls == SourceLines(c) && k < |ls|
    ensures '\n' !in ls[k]
  {
  }

  /** A line that starts with a label carries the label's third character. */
  lemma ThirdChar(line: string, tag: string)
    requires |tag| > 2 && StartsWith(line, tag)
    ensures |line| > 2 && line[2] == tag[2]
  {
    assert line[..|tag|][2] == line[2];
  }

  /** The third characters of an entry's lines: '[' for the title line, then
      'U', 'A', 'D' and 'S' for the URL, authors, date and snippet lines. */
  function Marks(lines: seq<string>): (ms: seq<char>)
    ensures |ms| == |lines|
    ensures forall k | 0 <= k < |lines| && |lines[k]| > 2 :: ms[k] == lines[k][2]
  {
    seq(|lines|, k requires 0 <= k < |lines| => if |lines[k]| > 2 then lines[k][2] else ' ')
  }

  lemma SourceMarks(c: Citation)
    ensures var ms := Marks(SourceLines(c) + [[]]);
      && ('A' in ms <==> Truthy(c.authors))
      && ('D' in ms <==> Truthy(c.date))
  {
    var l1, l2, l5 := "- [" + c.id + "] " + c.title, "  URL: " + c.url, "  Snippet: " + c.snippet;
    assert l1[2] == '[' && l2[2] == 'U' && l5[2] == 'S';
    if Truthy(c.authors) {
      assert (AuthorsLabel + c.authors.value)[2] == 'A';
    }
    if Truthy(c.date) {
      assert (DateLabel + c.date.value)[2] == 'D';
    }
    assert Marks(SourceLines(c) + [[]]) ==
      ['[', 'U'] + (if Truthy(c.authors) then ['A'] else []) + (if Truthy(c.date) then ['D'] else []) + ['S', ' ', ' '];
  }

  /** Where the optional lines sit in an entry. */
  lemma OptionalLinesAt(c: Citation)
    ensures Truthy(c.authors) ==> SourceLines(c)[2] == AuthorsLabel + c.authors.value
    ensures Truthy(c.date) ==> SourceLines(c)[if Truthy(c.authors) then 3 else 2] == DateLabel + c.date.value
  {
  }

  lemma TagStarts(tag: string, rest: string)
    ensures StartsWith(tag + rest, tag)
  {
    assert (tag + rest)[..|tag|] == tag;
  }

  /** Read back line by line, an entry has an "Authors:" line exactly when
      the source has authors. */
  lemma SourceAuthorsLine(c: Citation)
    requires SingleLineFields(c)
    ensures var lines := SplitOn(SourceText(c), '\n');
      (exists k | 0 <= k < |lines| :: StartsWith(lines[k], AuthorsLabel)) <==> Truthy(c.authors)
  {
    SourceLinesRead(c);
    SourceMarks(c);
    var lines := SourceLines(c) + [[]];
    var ms := Marks(lines);
    forall k | 0 <= k < |lines| && StartsWith(lines[k], AuthorsLabel) ensures Truthy(c.authors) {
      ThirdChar(lines[k], AuthorsLabel);
      assert ms[k] == 'A';
      assert ms[k] in ms;
    }
    if Truthy(c.authors) {
      OptionalLinesAt(c);
      TagStarts(AuthorsLabel, c.authors.value);
      assert lines[2] == SourceLines(c)[2];
    }
  }

  /** Read back line by line, an entry has a "Date:" line exactly when the
      source has a date. */
  lemma SourceDateLine(c: Citation)
    requires SingleLineFields(c)
    ensures var lines := SplitOn(SourceText(c), '\n');
      (exists k | 0 <= k < |lines| :: StartsWith(lines[k], DateLabel)) <==> Truthy(c.date)
  {
    SourceLinesRead(c);
    SourceMarks(c);
    var lines := SourceLines(c) + [[]];
    var ms := Marks(lines);
    forall k | 0 <= k < |lines| && StartsWith(lines[k], DateLabel) ensures Truthy(c.date) {
      ThirdChar(lines[k], DateLabel);
      assert ms[k] == 'D';
      assert ms[k] in ms;
    }
    if Truthy(c.date) {
      var k := if Truthy(c.authors) then 3 else 2;
      OptionalLinesAt(c);
      TagStarts(DateLabel, c.date.value);
      assert lines[k] == SourceLines(c)[k];
    }
  }

  function SourcesText(cs: seq<Citation>): string {
    if cs == [] then "" else SourcesText(cs[..|cs| - 1]) + SourceText(cs[|cs| - 1])
  }

  /** The entries of two runs of sources follow each other. */
  lemma {:induction false} SourcesTextConcat(a: seq<Citation>, b: seq<Citation>)
    ensures SourcesText(a + b) == SourcesText(a) + SourcesText(b)
  {
    if b == [] {
      assert a + b == a;
    } else {
      var front, last := b[..|b| - 1], b[|b| - 1];
      assert (a + b)[..|a + b| - 1] == a + front;
      assert (a + b)[|a + b| - 1] == last;
      SourcesTextConcat(a, front);
      assert SourcesText(b) == SourcesText(front) + SourceText(last);
    }
  }

  /** Each source's entry sits between the entries of the sources before it
      and those after it. */
  lemma SourceEntriesInOrder(a: seq<Citation>, c: Citation, b: seq<Citation>)
    ensures SourcesText(a + [c] + b) == SourcesText(a) + SourceText(c) + SourcesText(b)
  {
    SourcesTextConcat(a + [c], b);
    SourcesTextConcat(a, [c]);
    SourcesTextOne(c);
  }

  lemma SourcesTextOne(c: Citation)
    ensures SourcesText([c]) == SourceText(c)
  {
    assert [c][..0] == [];
  }

  /** The section of the unit at 1-based position `pos` in the full list. */
  function SectionText(pos: nat, q: SubQuestion): string {
    "\n--- Sub-Question " + NatToString(pos) + " ---\n"
    + "Q: " + q.question + "\n\n"
    + "Summary:\n" + q.summary + "\n\n"
    + (if q.sources != [] then "Sources:\n" + SourcesText(q.sources) else "")
  }

  /** The sections `format_summaries` collects, in unit order. */
  function Sections(units: seq<SubQuestion>): seq<string> {
    if units == [] then []
    else
      var n := |units|;
      Sections(units[..n - 1]) + (if Eligible(units[n - 1]) then [SectionText(n, units[n - 1])] else [])
  }

  /** The positions of the eligible units, in increasing order. */
  function EligiblePositions(units: seq<SubQuestion>): (ps: seq<nat>)
    ensures forall m | 0 <= m < |ps| :: ps[m] < |units|
  {
    if units == [] then []
    else
      var n := |units|;
      EligiblePositions(units[..n - 1]) + (if Eligible(units[n - 1]) then [n - 1] else [])
  }

  /** The positions listed are exactly those of the eligible units, each once,
      in increasing order. */
  lemma EligiblePositionsExact(units: seq<SubQuestion>)
    ensures var ps := EligiblePositions(units);
      && (forall m | 0 <= m < |ps| :: Eligible(units[ps[m]]))
      && (forall m1, m2 | 0 <= m1 < m2 < |ps| :: ps[m1] < ps[m2])
      && (forall i | 0 <= i < |units| && Eligible(units[i]) :: i in ps)
  {
    EligiblePositionsEligible(units);
    EligiblePositionsIncreasing(units);
    EligiblePositionsComplete(units);
  }

  lemma {:induction false} EligiblePositionsEligible(units: seq<SubQuestion>)
    ensures forall m | 0 <= m < |EligiblePositions(units)| :: Eligible(units[EligiblePositions(units)[m]])
  {
    if units != [] {
      var n := |units|;
      var prefix := units[..n - 1];
      EligiblePositionsEligible(prefix);
      var front := EligiblePositions(prefix);
      var ps := EligiblePositions(units);
      assert ps == front + (if Eligible(units[n - 1]) then [n - 1] else []);
      forall m | 0 <= m < |ps| ensures Eligible(units[ps[m]]) {
        if m < |front| {
          var p := front[m];
          assert ps[m] == p;
          assert Eligible(prefix[p]);
          assert units[p] == prefix[p];
        } else {
          assert ps[m] == n - 1;
        }
      }
    }
  }

  lemma {:induction false} EligiblePositionsIncreasing(units: seq<SubQuestion>)
    ensures forall m1, m2 | 0 <= m1 < m2 < |EligiblePositions(units)| ::
      EligiblePositions(units)[m1] < EligiblePositions(units)[m2]
  {
    if units != [] {
      var n := |units|;
      var prefix := units[..n - 1];
      EligiblePositionsIncreasing(prefix);
      var front := EligiblePositions(prefix);
      var ps := EligiblePositions(units);
      forall m1, m2 | 0 <= m1 < m2 < |ps| ensures ps[m1] < ps[m2] {
        if m2 >= |front| {
          assert ps[m1] == front[m1] < n - 1;
        }
      }
    }
  }

  lemma {:induction false} EligiblePositionsComplete(units: seq<SubQuestion>)
    ensures forall i | 0 <= i < |units| && Eligible(units[i]) :: i in EligiblePositions(units)
  {
    if units != [] {
      var n := |units|;
      var prefix := units[..n - 1];
      EligiblePositionsComplete(prefix);
      var front := EligiblePositions(prefix);
      var ps := EligiblePositions(units);
      forall i | 0 <= i < n && Eligible(units[i]) ensures i in ps {
        if i < n - 1 {
          assert prefix[i] == units[i];
          assert i in front;
        } else {
          assert ps[|ps| - 1] == i;
        }
      }
    }
  }

  /** The sections come in unit order: the m-th section belongs to the m-th
      eligible unit and carries that unit's position. */
  lemma {:induction false} SectionsInUnitOrder(units: seq<SubQuestion>)
    ensures var ps := EligiblePositions(units);
      && |Sections(units)| == |ps|
      && forall m | 0 <= m < |ps| :: Sections(units)[m] == SectionText(ps[m] + 1, units[ps[m]])
  {
    if units != [] {
      SectionsInUnitOrder(units[..|units| - 1]);
      SectionsInUnitOrderStep(units);
    }
  }

  lemma SectionsInUnitOrderStep(units: seq<SubQuestion>)
    requires units != []
    requires var prefix := units[..|units| - 1];
      var ps := EligiblePositions(prefix);
      && |Sections(prefix)| == |ps|
      && forall m | 0 <= m < |ps| :: Sections(prefix)[m] == SectionText(ps[m] + 1, prefix[ps[m]])
    ensures var ps := EligiblePositions(units);
      && |Sections(units)| == |ps|
      && forall m | 0 <= m < |ps| :: Sections(units)[m] == SectionText(ps[m] + 1, units[ps[m]])
  {
    var n := |units|;
    var prefix := units[..n - 1];
    var front := EligiblePositions(prefix);
    var ps := EligiblePositions(units);
    var ss := Sections(units);
    forall m | 0 <= m < |ps| ensures ss[m] == SectionText(ps[m] + 1, units[ps[m]]) {
      if m < |front| {
        var p := front[m];
        assert ps[m] == p && ss[m] == Sections(prefix)[m];
        assert units[p] == prefix[p];
      } else {
        assert ps[m] == n - 1 && ss[m] == SectionText(n, units[n - 1]);
      }
    }
  }

  const SectionHeading := "\n--- Sub-Question "

  /** The position a section carries can be read back from its text: two
      sections with different numbers never coincide. */
  lemma SectionNumberRecoverable(i: nat, q: SubQuestion, j: nat, r: SubQuestion)
    requires SectionText(i, q) == SectionText(j, r)
    ensures i == j
  {
    var h := |SectionHeading|;
    var a, b := NatToString(i), NatToString(j);
    SectionNumberAt(i, q);
    SectionNumberAt(j, r);
    var s := SectionText(i, q);
    if |a| == |b| {
      assert a == s[h..h + |a|] == b;
      NatToStringInjective(i, j);
    }
  }

  /** A section's number follows the heading and is followed by a space. */
  lemma SectionNumberAt(pos: nat, q: SubQuestion)
    ensures var s, a, h := SectionText(pos, q), NatToString(pos), |SectionHeading|;
      && h + |a| < |s| && s[h..h + |a|] == a && s[h + |a|] == ' '
  {
    var s, a := SectionText(pos, q), NatToString(pos);
    var head := SectionHeading + a + " ---\n";
    assert s == head + (s[|head|..]);
    assert head[|SectionHeading|..|SectionHeading| + |a|] == a;
  }

  function FormattedSummaries(units: seq<SubQuestion>): string {
    JoinWith(Sections(units), "\n")
  }

  /** Exactly the eligible units get a section, each numbered by its position
      in the whole list, so skipped units leave gaps in the numbering. */
  lemma SectionsNumberedByPosition(units: seq<SubQuestion>)
    ensures forall i | 0 <= i < |units| && Eligible(units[i]) :: SectionText(i + 1, units[i]) in Sections(units)
    ensures forall s | s in Sections(units) ::
      exists i | 0 <= i < |units| :: Eligible(units[i]) && s == SectionText(i + 1, units[i])
  {
    EverySectionPresent(units);
    OnlyNumberedSections(units);
  }

  lemma {:induction false} EverySectionPresent(units: seq<SubQuestion>)
    ensures forall i | 0 <= i < |units| && Eligible(units[i]) :: SectionText(i + 1, units[i]) in Sections(units)
  {
    if units != [] {
      var n := |units|;
      var prefix := units[..n - 1];
      EverySectionPresent(prefix);
      forall i | 0 <= i < n - 1 ensures units[i] == prefix[i] { }
    }
  }

  lemma {:induction false} OnlyNumberedSections(units: seq<SubQuestion>)
    ensures forall s | s in Sections(units) ::
      exists i | 0 <= i < |units| :: Eligible(units[i]) && s == SectionText(i + 1, units[i])
  {
    if units != [] {
      var n := |units|;
      var prefix := units[..n - 1];
      OnlyNumberedSections(prefix);
      forall i | 0 <= i < n - 1 ensures units[i] == prefix[i] { }
    }
  }

  /** The formatted text is empty exactly when no unit is eligible. */
  lemma {:induction false} FormattedEmptyIff(units: seq<SubQuestion>)
    ensures FormattedSummaries(units) == "" <==> forall i | 0 <= i < |units| :: !Eligible(units[i])
  {
    var parts := Sections(units);
    SectionsNumberedByPosition(units);
    JoinWithEmpty(parts, "\n");
    if parts != [] {
      assert parts[0] in parts;
      var i :| 0 <= i < |units| && Eligible(units[i]) && parts[0] == SectionText(i + 1, units[i]);
      assert parts[0][0] == '\n';
    }
    if exists i | 0 <= i < |units| :: Eligible(units[i]) {
      var i :| 0 <= i < |units| && Eligible(units[i]);
      assert SectionText(i + 1, units[i]) in parts;
    }
  }

  /** The lines of one source, appended piece by piece. */
  method FormatSource(c: Citation) returns (entry: string)
    ensures entry == SourceText(c)
  {
    entry := "";
    ghost var lines: seq<string> := [];
    entry, lines := AppendLine(entry, lines, "- [" + c.id + "] " + c.title);
    entry, lines := AppendLine(entry, lines, "  URL: " + c.url);
    if Truthy(c.authors) {
      entry, lines := AppendLine(entry, lines, AuthorsLabel + c.authors.value);
    }
    if Truthy(c.date) {
      entry, lines := AppendLine(entry, lines, DateLabel + c.date.value);
    }
    entry, lines := AppendLine(entry, lines, "  Snippet: " + c.snippet);
    entry, lines := AppendLine(entry, lines, "");
    assert lines == SourceLines(c);
  }

  /** `text += line + "\n"`, keeping track of the lines written so far. */
  method AppendLine(text: string, ghost lines: seq<string>, line: string)
    returns (text': string, ghost lines': seq<string>)
    requires text == Unlines(lines)
    ensures text' == text + line + "\n"
    ensures lines' == lines + [line] && text' == Unlines(lines')
  {
    UnlinesSnoc(lines, line);
    text' := text + line + "\n";
    lines' := lines + [line];
  }

  /** The source lines of one section, appended entry by entry. */
  method FormatSources(cs: seq<Citation>) returns (text: string)
    ensures text == SourcesText(cs)
  {
    text := "";
    var j := 0;
    while j < |cs|
      invariant 0 <= j <= |cs|
      invariant text == SourcesText(cs[..j])
    {
      var entry := FormatSource(cs[j]);
      SourcesTextSnoc(cs, j);
      text := text + entry;
      j := j + 1;
    }
    assert cs[..|cs|] == cs;
  }

  /** One section of `format_summaries`, appended to piece by piece. */
  method FormatSection(pos: nat, q: SubQuestion) returns (section: string)
    ensures section == SectionText(pos, q)
  {
    section := "\n--- Sub-Question " + NatToString(pos) + " ---\n";
    section := section + "Q: " + q.question + "\n\n";
    section := section + "Summary:\n" + q.summary + "\n\n";
    if q.sources != [] {
      var sources := FormatSources(q.sources);
      section := section + "Sources:\n" + sources;
    }
  }

  lemma SourcesTextSnoc(cs: seq<Citation>, j: nat)
    requires j < |cs|
    ensures SourcesText(cs[..j + 1]) == SourcesText(cs[..j]) + SourceText(cs[j])
  {
    assert cs[..j + 1][..j] == cs[..j];
  }

  /** `format_summaries`: a section per eligible unit, joined with newlines. */
  method FormatSummaries(units: seq<SubQuestion>) returns (s: string)
    ensures s == FormattedSummaries(units)
  {
    var formatted: seq<string> := [];
    var i := 0;
    while i < |units|
      invariant 0 <= i <= |units|
      invariant formatted == Sections(units[..i])
    {
      var q := units[i];
      assert units[..i + 1][..i] == units[..i];
      if q.status == Completed && q.summary != "" {
        var section := FormatSection(i + 1, q);
        formatted := formatted + [section];
      }
      i := i + 1;
    }
    assert units[..|units|] == units;
    s := JoinWith(formatted, "\n");
  }

  /** Every unit's sources, completed or not, in unit order. */
  function AllCitations(units: seq<SubQuestion>): (cs: seq<Citation>)
    ensures forall c :: c in cs <==>
      exists a, i | 0 <= a < |units| && 0 <= i < |units[a].sources| :: units[a].sources[i] == c
  {
    if units == [] then []
    else
      var prefix := units[..|units| - 1];
      var rest := AllCitations(prefix);
      assert forall a | 0 <= a < |prefix| :: prefix[a] == units[a];
      rest + units[|units| - 1].sources
  }

  /** The citations of two runs of units follow each other. */
  lemma {:induction false} AllCitationsConcat(a: seq<SubQuestion>, b: seq<SubQuestion>)
    ensures AllCitations(a + b) == AllCitations(a) + AllCitations(b)
  {
    if b == [] {
      assert a + b == a;
    } else {
      var front, last := b[..|b| - 1], b[|b| - 1];
      assert (a + b)[..|a + b| - 1] == a + front;
      assert (a + b)[|a + b| - 1] == last;
      AllCitationsConcat(a, front);
      assert AllCitations(b) == AllCitations(front) + last.sources;
    }
  }

  /** Each unit's sources, in their own order, sit between the citations of
      the units before it and those after it. */
  lemma AllCitationsAt(units: seq<SubQuestion>, k: nat)
    requires k < |units|
    ensures AllCitations(units) == AllCitations(units[..k]) + units[k].sources + AllCitations(units[k + 1..])
  {
    var front, back := units[..k + 1], units[k + 1..];
    assert units == front + back;
    AllCitationsConcat(front, back);
    assert front[..k] == units[..k];
    assert AllCitations(front) == AllCitations(units[..k]) + units[k].sources;
  }

  /** When no two sources of the units share an id, neither do the collected citations. */
  lemma {:induction false} AllCitationsDistinct(units: seq<SubQuestion>)
    requires forall a, i, b, j |
      0 <= a < |units| && 0 <= b < |units| && 0 <= i < |units[a].sources| && 0 <= j < |units[b].sources|
      && (a != b || i != j) :: units[a].sources[i].id != units[b].sources[j].id
    ensures IdsDistinct(AllCitations(units))
  {
    if units != [] {
      var n := |units|;
      var prefix := units[..n - 1];
      assert forall a | 0 <= a < |prefix| :: prefix[a] == units[a];
      AllCitationsDistinct(prefix);
      var front := AllCitations(prefix);
      var back := units[n - 1].sources;
      assert AllCitations(units) == front + back;
      forall p, q | 0 <= p < |front| && 0 <= q < |back| ensures front[p].id != back[q].id {
        assert front[p] in front;
        var a, i :| 0 <= a < |prefix| && 0 <= i < |prefix[a].sources| && prefix[a].sources[i] == front[p];
        assert units[a].sources[i] == front[p];
      }
    }
  }

  predicate IdsDistinct(cs: seq<Citation>) {
    forall i, j | 0 <= i < j < |cs| :: cs[i].id != cs[j].id
  }

  function IdsOf(cs: seq<Citation>): seq<string> {
    seq(|cs|, i requires 0 <= i < |cs| => cs[i].id)
  }

  /** Index of the first citation with this id, or `|cs|`. */
  function IndexOfId(cs: seq<Citation>, id: string): (k: nat)
    ensures k <= |cs|
    ensures k < |cs| ==> cs[k].id == id
    ensures forall j | 0 <= j < k :: cs[j].id != id
  {
    if cs == [] then 0 else if cs[0].id == id then 0 else 1 + IndexOfId(cs[1..], id)
  }

  /** One dictionary assignment `d[c.id] = c`: an existing key keeps its
      place and takes the new value; a new key goes last. */
  function Upsert(acc: seq<Citation>, c: Citation): seq<Citation> {
    var k := IndexOfId(acc, c.id);
    if k < |acc| then acc[k := c] else acc + [c]
  }

  /** `list({c.id: c for c in cs}.values())`. */
  function Dedup(cs: seq<Citation>): (r: seq<Citation>)
    ensures IdsDistinct(r)
    ensures |r| <= |cs|
    ensures forall k | 0 <= k < |r| :: r[k] in cs
  {
    if cs == [] then []
    else
      var prefix := Dedup(cs[..|cs| - 1]);
      var c := cs[|cs| - 1];
      assert forall x | x in cs[..|cs| - 1] :: x in cs;
      UpsertKeepsDistinct(prefix, c);
      Upsert(prefix, c)
  }

  lemma UpsertKeepsDistinct(acc: seq<Citation>, c: Citation)
    requires IdsDistinct(acc)
    ensures IdsDistinct(Upsert(acc, c))
    ensures |Upsert(acc, c)| <= |acc| + 1
    ensures forall k | 0 <= k < |Upsert(acc, c)| :: Upsert(acc, c)[k] in acc || Upsert(acc, c)[k] == c
  {
    var k := IndexOfId(acc, c.id);
    if k < |acc| {
      var r := acc[k := c];
      forall i, j | 0 <= i < j < |r| ensures r[i].id != r[j].id {
        assert r[i].id == acc[i].id && r[j].id == acc[j].id;
      }
    }
  }

  /** The ids after an upsert: unchanged for a known id, one more for a new one. */
  lemma UpsertIds(acc: seq<Citation>, c: Citation)
    ensures IdsOf(Upsert(acc, c)) == if c.id in IdsOf(acc) then IdsOf(acc) else IdsOf(acc) + [c.id]
  {
    var k := IndexOfId(acc, c.id);
    if k < |acc| {
      assert IdsOf(acc)[k] == c.id;
      assert IdsOf(acc[k := c]) == IdsOf(acc);
    } else {
      assert c.id !in IdsOf(acc);
      assert IdsOf(acc + [c]) == IdsOf(acc) + [c.id];
    }
  }

  /** The ids of `xs` without repeats, each where it first appears. */
  function Distinct(xs: seq<string>): seq<string> {
    if xs == [] then []
    else
      var d := Distinct(xs[..|xs| - 1]);
      if xs[|xs| - 1] in d then d else d + [xs[|xs| - 1]]
  }

  /** Index of the first occurrence of `x` in `xs`, or `|xs|`. */
  function FirstIndex(xs: seq<string>, x: string): (k: nat)
    ensures k <= |xs|
    ensures k < |xs| ==> xs[k] == x
    ensures forall j | 0 <= j < k :: xs[j] != x
  {
    if xs == [] then 0 else if xs[0] == x then 0 else 1 + FirstIndex(xs[1..], x)
  }

  /** `Distinct` keeps each value once, nothing else, ordered by first appearance. */
  lemma DistinctByFirstAppearance(xs: seq<string>)
    ensures forall x :: x in Distinct(xs) <==> x in xs
    ensures forall i, j | 0 <= i < j < |Distinct(xs)| :: Distinct(xs)[i] != Distinct(xs)[j]
    ensures forall i, j | 0 <= i < j < |Distinct(xs)| ::
      FirstIndex(xs, Distinct(xs)[i]) < FirstIndex(xs, Distinct(xs)[j])
  {
    DistinctSameValues(xs);
    DistinctNoRepeats(xs);
    DistinctInFirstOrder(xs);
  }

  lemma {:induction false} DistinctSameValues(xs: seq<string>)
    ensures forall x :: x in Distinct(xs) <==> x in xs
  {
    if xs != [] {
      DistinctSameValues(xs[..|xs| - 1]);
      assert xs == xs[..|xs| - 1] + [xs[|xs| - 1]];
    }
  }

  lemma {:induction false} DistinctNoRepeats(xs: seq<string>)
    ensures forall i, j | 0 <= i < j < |Distinct(xs)| :: Distinct(xs)[i] != Distinct(xs)[j]
  {
    if xs != [] {
      DistinctNoRepeats(xs[..|xs| - 1]);
    }
  }

  lemma {:induction false} DistinctInFirstOrder(xs: seq<string>)
    ensures forall i, j | 0 <= i < j < |Distinct(xs)| ::
      FirstIndex(xs, Distinct(xs)[i]) < FirstIndex(xs, Distinct(xs)[j])
  {
    if xs != [] {
      var prefix := xs[..|xs| - 1];
      DistinctInFirstOrder(prefix);
      DistinctSameValues(prefix);
      FirstIndexLast(xs);
    }
  }

  /** The first index of a value already in the prefix does not change when
      one more value is appended; a new value is found last. */
  lemma FirstIndexLast(xs: seq<string>)
    requires xs != []
    ensures forall y | y in xs[..|xs| - 1] :: FirstIndex(xs, y) == FirstIndex(xs[..|xs| - 1], y) < |xs| - 1
    ensures xs[|xs| - 1] !in xs[..|xs| - 1] ==> FirstIndex(xs, xs[|xs| - 1]) == |xs| - 1
  {
    var prefix := xs[..|xs| - 1];
    assert xs == prefix + [xs[|xs| - 1]];
    FirstIndexSnoc(prefix, xs[|xs| - 1]);
  }

  /** Appending keeps the first index of what was there and puts a new value last. */
  lemma FirstIndexSnoc(xs: seq<string>, x: string)
    ensures forall y | y in xs :: FirstIndex(xs + [x], y) == FirstIndex(xs, y) < |xs|
    ensures x !in xs ==> FirstIndex(xs + [x], x) == |xs|
  {
    forall y | y in xs ensures FirstIndex(xs + [x], y) == FirstIndex(xs, y) < |xs| {
      var k := FirstIndex(xs, y);
      assert (xs + [x])[k] == y;
    }
    if x !in xs {
      var k := FirstIndex(xs + [x], x);
      assert (xs + [x])[|xs|] == x;
    }
  }

  /** The last citation in `cs` carrying `id`, if any. */
  function LastWithId(cs: seq<Citation>, id: string): Option<Citation> {
    if cs == [] then None
    else if cs[|cs| - 1].id == id then Some(cs[|cs| - 1])
    else LastWithId(cs[..|cs| - 1], id)
  }

  /** De-duplication keeps one citation per id, in order of the id's first
      appearance, holding the last citation with that id. */
  lemma DedupFirstPlaceLastValue(cs: seq<Citation>)
    ensures IdsOf(Dedup(cs)) == Distinct(IdsOf(cs))
    ensures forall k | 0 <= k < |Dedup(cs)| :: LastWithId(cs, Dedup(cs)[k].id) == Some(Dedup(cs)[k])
  {
    DedupIdsInFirstOrder(cs);
    DedupKeepsLastValue(cs);
  }

  lemma {:induction false} DedupIdsInFirstOrder(cs: seq<Citation>)
    ensures IdsOf(Dedup(cs)) == Distinct(IdsOf(cs))
  {
    if cs != [] {
      DedupIdsInFirstOrder(cs[..|cs| - 1]);
      DedupIdsStep(cs);
    }
  }

  lemma {:induction false} DedupKeepsLastValue(cs: seq<Citation>)
    ensures forall k | 0 <= k < |Dedup(cs)| :: LastWithId(cs, Dedup(cs)[k].id) == Some(Dedup(cs)[k])
  {
    if cs != [] {
      DedupKeepsLastValue(cs[..|cs| - 1]);
      DedupValuesStep(cs);
    }
  }

  lemma DedupIdsStep(cs: seq<Citation>)
    requires cs != []
    requires IdsOf(Dedup(cs[..|cs| - 1])) == Distinct(IdsOf(cs[..|cs| - 1]))
    ensures IdsOf(Dedup(cs)) == Distinct(IdsOf(cs))
  {
    var prefix, c := cs[..|cs| - 1], cs[|cs| - 1];
    assert Dedup(cs) == Upsert(Dedup(prefix), c);
    UpsertIds(Dedup(prefix), c);
    IdsOfLast(cs);
    DistinctSnoc(IdsOf(prefix), c.id);
  }

  lemma IdsOfLast(cs: seq<Citation>)
    requires cs != []
    ensures IdsOf(cs) == IdsOf(cs[..|cs| - 1]) + [cs[|cs| - 1].id]
  {
    assert forall i | 0 <= i < |cs| - 1 :: cs[..|cs| - 1][i] == cs[i];
  }

  lemma DistinctSnoc(xs: seq<string>, x: string)
    ensures Distinct(xs + [x]) == if x in Distinct(xs) then Distinct(xs) else Distinct(xs) + [x]
  {
    assert (xs + [x])[..|xs|] == xs;
  }

  lemma DedupValuesStep(cs: seq<Citation>)
    requires cs != []
    requires var prefix := cs[..|cs| - 1];
      forall k | 0 <= k < |Dedup(prefix)| :: LastWithId(prefix, Dedup(prefix)[k].id) == Some(Dedup(prefix)[k])
    ensures forall k | 0 <= k < |Dedup(cs)| :: LastWithId(cs, Dedup(cs)[k].id) == Some(Dedup(cs)[k])
  {
    var prefix, c := cs[..|cs| - 1], cs[|cs| - 1];
    var d := Dedup(prefix);
    var r := Dedup(cs);
    assert r == Upsert(d, c);
    var k := IndexOfId(d, c.id);
    forall j | 0 <= j < |d| && j != k ensures d[j].id != c.id {
      if k < |d| {
        assert d[k].id == c.id;
      }
    }
    forall j | 0 <= j < |r| ensures LastWithId(cs, r[j].id) == Some(r[j]) {
      if j == k || j == |d| {
        assert r[j] == c;
      } else {
        assert r[j] == d[j];
      }
    }
  }

  /** Citations whose ids are already distinct pass through unchanged. */
  lemma {:induction false} DedupOfDistinctIsIdentity(cs: seq<Citation>)
    requires IdsDistinct(cs)
    ensures Dedup(cs) == cs
  {
    if cs != [] {
      var prefix := cs[..|cs| - 1];
      DedupOfDistinctIsIdentity(prefix);
      var k := IndexOfId(prefix, cs[|cs| - 1].id);
      assert k == |prefix|;
      assert prefix + [cs[|cs| - 1]] == cs;
    }
  }

  const HeadingMarker := "# "

  /** Index of the first line starting with "# ", or `|lines|`. */
  function FirstHeading(lines: seq<string>): (k: nat)
    ensures k <= |lines|
    ensures k < |lines| ==> StartsWith(lines[k], HeadingMarker)
    ensures forall j | 0 <= j < k :: !StartsWith(lines[j], HeadingMarker)
  {
    if lines == [] then 0
    else if StartsWith(lines[0], HeadingMarker) then 0
    else 1 + FirstHeading(lines[1..])
  }

  /** The title: the first "# " line with every "# " removed, stripped; the query if there is none. */
  function Title(content: string, query: string): string {
    var lines := SplitOn(content, '\n');
    var k := FirstHeading(lines);
    if k < |lines| then Strip(RemoveAll(lines[k], HeadingMarker)) else query
  }

  /** The title search of `publisher_node`: scan the lines, stop at the first heading. */
  method ExtractTitle(content: string, query: string) returns (title: string)
    ensures title == Title(content, query)
  {
    var lines := SplitOn(content, '\n');
    var i := 0;
    while i < |lines| && !StartsWith(lines[i], HeadingMarker)
      invariant 0 <= i <= |lines|
      invariant forall j | 0 <= j < i :: !StartsWith(lines[j], HeadingMarker)
    {
      i := i + 1;
    }
    FirstHeadingAt(lines, i);
    if i < |lines| {
      title := Strip(RemoveAll(lines[i], HeadingMarker));
    } else {
      title := query;
    }
  }

  /** A heading at `i` with none before it, or none at all, is what `FirstHeading` finds. */
  lemma FirstHeadingAt(lines: seq<string>, i: nat)
    requires i <= |lines|
    requires forall j | 0 <= j < i :: !StartsWith(lines[j], HeadingMarker)
    requires i < |lines| ==> StartsWith(lines[i], HeadingMarker)
    ensures FirstHeading(lines) == i
  {
    var k := FirstHeading(lines);
  }

  lemma {:induction false} SplitOnFirstPiece(s1: string, s2: string, sep: char)
    requires sep !in s1
    requires s2 == [] || s2[0] == sep
    ensures SplitOn(s1 + s2, sep)[0] == s1
  {
    if s1 == [] {
      if s2 != [] {
        assert (s1 + s2)[0] == sep;
      }
    } else {
      assert (s1 + s2)[1..] == s1[1..] + s2;
      SplitOnFirstPiece(s1[1..], s2, sep);
    }
  }

  /** A report opening with "# t" (t without '#') is titled with t stripped. */
  lemma {:induction false} HeadingGivesTitle(t: string, rest: string, query: string)
    requires '#' !in t && '\n' !in t
    requires rest == [] || rest[0] == '\n'
    ensures Title(HeadingMarker + t + rest, query) == Strip(t)
  {
    var line := HeadingMarker + t;
    assert HeadingMarker + t + rest == line + rest;
    SplitOnFirstPiece(line, rest, '\n');
    assert StartsWith(line, HeadingMarker);
    assert line[2..] == t;
    forall k ensures !OccursAt(t, HeadingMarker, k) {
      if 0 <= k && k + 2 <= |t| {
        assert t[k..k + 2][0] == t[k];
      }
    }
  }

  /** A report opening with a heading line is titled with the rest of that
      line, every "# " in it removed, stripped. */
  lemma HeadingLineGivesTitle(t: string, rest: string, query: string)
    requires '\n' !in t
    requires rest == [] || rest[0] == '\n'
    ensures Title(HeadingMarker + t + rest, query) == Strip(RemoveAll(t, HeadingMarker))
  {
    var line := HeadingMarker + t;
    assert HeadingMarker + t + rest == line + rest;
    SplitOnFirstPiece(line, rest, '\n');
    assert StartsWith(line, HeadingMarker);
    RemoveAllDropsLeading(t, HeadingMarker);
  }

  /** A report none of whose lines starts with "# " is titled with the query. */
  lemma NoHeadingDefaultsToQuery(content: string, query: string)
    requires forall j | 0 <= j < |SplitOn(content, '\n')| ::
      !StartsWith(SplitOn(content, '\n')[j], HeadingMarker)
    ensures Title(content, query) == query
  {
    FirstHeadingAt(SplitOn(content, '\n'), |SplitOn(content, '\n')|);
  }

  /** In particular, a report without any '#' is titled with the query. */
  lemma HashFreeDefaultsToQuery(content: string, query: string)
    requires '#' !in content
    ensures Title(content, query) == query
  {
    var lines := SplitOn(content, '\n');
    forall j | 0 <= j < |lines| ensures !StartsWith(lines[j], HeadingMarker) {
      NoHashNoHeading(content, lines[j]);
    }
    NoHeadingDefaultsToQuery(content, query);
  }

  lemma NoHashNoHeading(content: string, line: string)
    requires '#' !in content
    requires forall i | 0 <= i < |line| :: line[i] in content
    ensures !StartsWith(line, HeadingMarker)
  {
    if |line| >= 2 {
      assert line[..2][0] == line[0];
    }
  }

  const NothingToSynthesize := "No completed research to synthesize"

  /** `publisher_node`: an error record when nothing is eligible or the model
      call fails; otherwise a report whose word count is the number of words
      of its text and whose citations come from every unit, de-duplicated. */
  function PublisherNode(query: string, units: seq<SubQuestion>, resp: Response): (out: NodeOutput)
    ensures out.report.Some? <==> (exists i | 0 <= i < |units| :: Eligible(units[i])) && Call(resp).Success?
    ensures (forall i | 0 <= i < |units| :: !Eligible(units[i])) ==>
      out == ErrorOutput("Publisher failed: " + NothingToSynthesize, "Report synthesis failed", 80)
    ensures (exists i | 0 <= i < |units| :: Eligible(units[i])) && Call(resp).Failure? ==>
      out == ErrorOutput("Publisher failed: " + Call(resp).error, "Report synthesis failed", 80)
    ensures out.report.None? ==>
      && out.error.Some? && StartsWith(out.error.value, "Publisher failed: ")
      && out.currentStep == Some("Report synthesis failed") && out.progress == Some(80)
      && out.status == None && out.subQuestions == None
    ensures out.report.Some? ==>
      var content := Call(resp).value;
      && out.report.value.content == content
      && out.report.value.wordCount == WordStarts(content, true)
      && out.report.value.title == Title(content, query)
      && out.report.value.citations == Dedup(AllCitations(units))
      && out.status == Some("done") && out.progress == Some(100)
      && out.currentStep == Some("Report generation complete")
      && out.error == None && out.subQuestions == None
  {
    FormattedEmptyIff(units);
    var summaries := FormattedSummaries(units);
    if summaries == "" then
      ErrorOutput("Publisher failed: " + NothingToSynthesize, "Report synthesis failed", 80)
    else
      match Call(resp)
      case Failure(e) => ErrorOutput("Publisher failed: " + e, "Report synthesis failed", 80)
      case Success(content) =>
        WordCountIsWordStarts(content);
        var report := Report(Title(content, query), content, |Words(content)|, Dedup(AllCitations(units)));
        NodeOutput(Some("done"), Some("Report generation complete"), Some(100), None, Some(report), None)
  }
}
