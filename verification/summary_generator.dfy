/** The hierarchical summariser: per-chunk summaries and their key points, the
    filtering of failed chunks, the line-by-line parse of the aggregated summary
    into named sections, and its two fallbacks (three equal word blocks, or one
    section per section type). */
module SummaryGenerator {
  import opened Wrappers
  import opened Text
  import Seqs
  import ChunkManager
  import GeminiClient

  /** The summary of one chunk; the processing time is a clock read and is left out. */
  datatype ChunkSummary = ChunkSummary(
    chunkIndex: nat,
    section: string,
    sectionType: string,
    summary: string,
    keyPoints: seq<string>)

  /** One `{'title': …, 'content': …}` entry of the final summary. */
  datatype SummarySection = SummarySection(title: string, content: string)

  /** The whole result; the success rate is `successCount / chunkCount`. */
  datatype SummaryResult = SummaryResult(
    title: string,
    sections: seq<SummarySection>,
    chunkSummaries: seq<ChunkSummary>,
    chunkCount: nat,
    successCount: nat)

  const DefaultTitle := "Research Paper Summary"
  const NoChunksError := "No chunks provided for summarization"
  const AllFailedError := "All chunk summarizations failed"
  const NothingToAggregateError := "No chunk summaries to aggregate"

  const MaxKeyPoints := 5
  const MinKeyPointLength := 20
  const MaxKeyPointLength := 200
  const MinStructuredSections := 3

  // ---------------------------------------------------------------- key points

  predicate NonEmpty(s: string) { s != [] }

  /** The non-empty stripped pieces of the text between full stops. */
  function Sentences(text: string): seq<string> {
    Seqs.Filter(Seqs.Map(Split(text, '.'), Strip), NonEmpty)
  }

  /** A sentence of reasonable length for a key point. */
  predicate KeyPointLength(sentence: string) {
    MinKeyPointLength < |sentence| < MaxKeyPointLength
  }

  function WithPeriod(sentence: string): string {
    sentence + "."
  }

  /** `_extract_key_points` */
  function ExtractKeyPoints(text: string): seq<string> {
    Seqs.FilterMap(FirstSentences(text), KeyPointLength, WithPeriod)
  }

  /** A sentence is non-empty, has no whitespace at either end and no full stop. */
  lemma SentencesSpec(text: string)
    ensures forall k | 0 <= k < |Sentences(text)| ::
      var s := Sentences(text)[k]; s != [] && Trimmed(s) && '.' !in s
  {
    var pieces := Split(text, '.');
    var stripped := Seqs.Map(pieces, Strip);
    forall k | 0 <= k < |Sentences(text)|
      ensures var s := Sentences(text)[k]; s != [] && Trimmed(s) && '.' !in s
    {
      var s := Sentences(text)[k];
      assert s in stripped;
      var j :| 0 <= j < |stripped| && stripped[j] == s;
      StripSpec(pieces[j]);
    }
  }

  /** The first five sentences, the only ones looked at. */
  function FirstSentences(text: string): (r: seq<string>)
    ensures |r| <= MaxKeyPoints
  {
    var sentences := Sentences(text);
    sentences[..Min(MaxKeyPoints, |sentences|)]
  }

  /** The key points are the first five sentences of reasonable length, each followed
      by a full stop, in order. */
  lemma KeyPointsOfFirst(text: string)
    ensures ExtractKeyPoints(text) == Seqs.Map(Seqs.Filter(FirstSentences(text), KeyPointLength), WithPeriod)
  {
    Seqs.FilterMapSpec(FirstSentences(text), KeyPointLength, WithPeriod);
  }

  /** A sentence kept for a key point is one of the first five, of reasonable length,
      with no whitespace at either end and no full stop. */
  lemma KeptSentence(text: string, kept: seq<string>, k: nat)
    requires kept == Seqs.Filter(FirstSentences(text), KeyPointLength) && k < |kept|
    ensures kept[k] in FirstSentences(text) && KeyPointLength(kept[k])
    ensures Trimmed(kept[k]) && '.' !in kept[k]
  {
    var first := FirstSentences(text);
    assert kept[k] in first;
    var j :| 0 <= j < |first| && first[j] == kept[k];
    assert first[j] == Sentences(text)[j];
    SentencesSpec(text);
  }

  /** At most five key points; each is one of the first five sentences, of reasonable
      length, with no whitespace at either end and no full stop of its own, followed by
      a full stop. */
  lemma KeyPointsSpec(text: string)
    ensures |ExtractKeyPoints(text)| <= MaxKeyPoints
    ensures forall k | 0 <= k < |ExtractKeyPoints(text)| ::
      var p := ExtractKeyPoints(text)[k];
      && EndsWith(p, ".")
      && p[..|p| - 1] in FirstSentences(text)
      && KeyPointLength(p[..|p| - 1])
      && Trimmed(p[..|p| - 1])
      && '.' !in p[..|p| - 1]
  {
    var kept := Seqs.Filter(FirstSentences(text), KeyPointLength);
    KeyPointsOfFirst(text);
    var r := ExtractKeyPoints(text);
    forall k | 0 <= k < |r|
      ensures var p := r[k];
        && EndsWith(p, ".") && p[..|p| - 1] in FirstSentences(text) && KeyPointLength(p[..|p| - 1])
        && Trimmed(p[..|p| - 1]) && '.' !in p[..|p| - 1]
    {
      var p := r[k];
      assert p == kept[k] + ".";
      assert p[..|p| - 1] == kept[k];
      KeptSentence(text, kept, k);
    }
  }

  /** Every one of the first five sentences of reasonable length gives a key point. */
  lemma KeyPointsComplete(text: string)
    ensures forall j | 0 <= j < |FirstSentences(text)| ::
      KeyPointLength(FirstSentences(text)[j]) ==> FirstSentences(text)[j] + "." in ExtractKeyPoints(text)
  {
    KeyPointsOfFirst(text);
    Seqs.MapFilterComplete(FirstSentences(text), KeyPointLength, WithPeriod, ExtractKeyPoints(text));
  }

  // ---------------------------------------------------------------- simple sections

  /** `_create_simple_sections`: the words of the text in three consecutive blocks, the
      first two of `n / 3` words each, the last of the rest. */
  function CreateSimpleSections(text: string): (r: seq<SummarySection>)
    ensures |r| == 3
  {
    var words := Words(text);
    var n := |words| / 3;
    [ SummarySection("Overview", Join(words[..n], " ")),
      SummarySection("Key Findings", Join(words[n..2 * n], " ")),
      SummarySection("Conclusions", Join(words[2 * n..], " ")) ]
  }

  /** The three blocks hold exactly the text's words, in order, the first two with a
      third of them each (rounded down). */
  lemma SimpleSectionsSpec(text: string)
    ensures var r := CreateSimpleSections(text);
      r[0].title == "Overview" && r[1].title == "Key Findings" && r[2].title == "Conclusions"
    ensures var r := CreateSimpleSections(text);
      Words(r[0].content) + Words(r[1].content) + Words(r[2].content) == Words(text)
    ensures var r := CreateSimpleSections(text); var n := |Words(text)|;
      |Words(r[0].content)| == n / 3 && |Words(r[1].content)| == n / 3 && |Words(r[2].content)| == n - 2 * (n / 3)
  {
    var words := Words(text);
    var n := |words| / 3;
    var r := CreateSimpleSections(text);
    var a, b, c := words[..n], words[n..2 * n], words[2 * n..];
    assert r[0].content == Join(a, " ") && r[1].content == Join(b, " ") && r[2].content == Join(c, " ");
    assert Words(r[0].content) == a by { WordsJoin(a); }
    assert Words(r[1].content) == b by { WordsJoin(b); }
    assert Words(r[2].content) == c by { WordsJoin(c); }
    assert |a| == n && |b| == n && |c| == |words| - 2 * n;
    assert a + b + c == words by { Seqs.ThreeSlices(words, n); }
  }

  // ---------------------------------------------------------------- header lines

  /** The section keys and the synonyms that announce them, in the order they are tried. */
  const SectionHeaders: seq<(string, seq<string>)> := [
    ("problem", ["problem", "research problem", "research question"]),
    ("methods", ["methods", "methodology", "approach", "techniques"]),
    ("results", ["results", "findings", "outcomes", "discoveries"]),
    ("implications", ["implications", "significance", "applications", "impact"]),
    ("limitations", ["limitations", "constraints", "future work", "future research"])
  ]

  /** A stripped line shaped like a heading: "**…", "#…" or "…:". */
  predicate HeaderFormat(line: string) {
    StartsWith(line, "**") || StartsWith(line, "#") || EndsWith(line, ":")
  }

  /** Some synonym occurs in the lower-cased line. */
  predicate MentionsAny(lowered: string, variants: seq<string>) {
    exists t | 0 <= t < |variants| :: Contains(lowered, variants[t])
  }

  /** The key of the first table entry with a synonym in the line. */
  function FirstKey(table: seq<(string, seq<string>)>, lowered: string): Option<string> {
    if table == [] then None
    else if MentionsAny(lowered, table[0].1) then Some(table[0].0)
    else FirstKey(table[1..], lowered)
  }

  /** The section a stripped line opens, if it is a header line. */
  function HeaderKey(line: string): Option<string> {
    if HeaderFormat(line) then FirstKey(SectionHeaders, Lower(line)) else None
  }

  /** The header scan of `_parse_structured_summary`: every synonym of every key in table
      order, stopping at the first that occurs in a heading-shaped line. */
  method FindHeaderKey(table: seq<(string, seq<string>)>, line: string) returns (key: Option<string>)
    ensures key == if HeaderFormat(line) then FirstKey(table, Lower(line)) else None
  {
    var lowered := Lower(line);
    ghost var expected := if HeaderFormat(line) then FirstKey(table, lowered) else None;
    key := None;
    var j := 0;
    while j < |table| && key.None?
      invariant 0 <= j <= |table|
      invariant key.None? ==> expected == if HeaderFormat(line) then FirstKey(table[j..], lowered) else None
      invariant key.Some? ==> key == expected
      decreases |table| - j
    {
      var variants := table[j].1;
      var v := 0;
      while v < |variants| && key.None?
        invariant 0 <= v <= |variants|
        invariant key.None? ==> forall t | 0 <= t < v :: !(Contains(lowered, variants[t]) && HeaderFormat(line))
        invariant key.Some? ==> key == Some(table[j].0) && HeaderFormat(line) && MentionsAny(lowered, variants)
        decreases |variants| - v
      {
        if Contains(lowered, variants[v]) && HeaderFormat(line) {
          key := Some(table[j].0);
        }
        v := v + 1;
      }
      assert table[j..][1..] == table[j + 1..];
      j := j + 1;
    }
  }

  /** The key found belongs to the first entry with a synonym in the line; entries
      before it have none. */
  lemma {:induction false} FirstKeyAt(table: seq<(string, seq<string>)>, lowered: string) returns (j: nat)
    requires FirstKey(table, lowered).Some?
    ensures j < |table| && table[j].0 == FirstKey(table, lowered).value
    ensures MentionsAny(lowered, table[j].1)
    ensures forall i | 0 <= i < j :: !MentionsAny(lowered, table[i].1)
  {
    if MentionsAny(lowered, table[0].1) {
      j := 0;
    } else {
      var j0 := FirstKeyAt(table[1..], lowered);
      j := j0 + 1;
    }
  }

  /** No key is found exactly when no entry has a synonym in the line. */
  lemma {:induction false} FirstKeyNone(table: seq<(string, seq<string>)>, lowered: string)
    ensures FirstKey(table, lowered).None? <==> forall i | 0 <= i < |table| :: !MentionsAny(lowered, table[i].1)
  {
    if table != [] {
      FirstKeyNone(table[1..], lowered);
      assert forall i | 1 <= i < |table| :: table[i] == table[1..][i - 1];
    }
  }

  /** One of the five section keys. */
  predicate SectionKey(key: string) {
    key == "problem" || key == "methods" || key == "results" || key == "implications" || key == "limitations"
  }

  /** A header line opens one of the five sections. */
  lemma HeaderKeyIsSectionKey(line: string)
    requires HeaderKey(line).Some?
    ensures SectionKey(HeaderKey(line).value)
  {
    var j := FirstKeyAt(SectionHeaders, Lower(line));
    assert j < 5;
    assert j == 0 || j == 1 || j == 2 || j == 3 || j == 4;
  }

  /** A line is a header exactly when it is heading-shaped and one of the synonyms occurs
      in its lower-cased form; the first key in table order with such a synonym wins. */
  lemma HeaderKeySpec(line: string)
    ensures HeaderKey(line).Some? <==>
      HeaderFormat(line) && exists i | 0 <= i < |SectionHeaders| :: MentionsAny(Lower(line), SectionHeaders[i].1)
    ensures HeaderKey(line).Some? ==> exists j | 0 <= j < |SectionHeaders| ::
      && SectionHeaders[j].0 == HeaderKey(line).value
      && MentionsAny(Lower(line), SectionHeaders[j].1)
      && forall i | 0 <= i < j :: !MentionsAny(Lower(line), SectionHeaders[i].1)
  {
    FirstKeyNone(SectionHeaders, Lower(line));
    if HeaderKey(line).Some? {
      var j := FirstKeyAt(SectionHeaders, Lower(line));
    }
  }

  // ---------------------------------------------------------------- structured parse

  /** `s.replace(pat, "")`: occurrences removed left to right, without overlap. */
  function Remove(s: string, pat: string): string
    requires pat != []
    decreases |s|
  {
    if |s| < |pat| then s
    else if s[..|pat|] == pat then Remove(s[|pat|..], pat)
    else [s[0]] + Remove(s[1..], pat)
  }

  /** A body line with the "**" and "#" markup removed, stripped. */
  function CleanLine(line: string): string {
    Strip(Remove(Remove(line, "**"), "#"))
  }

  /** The parser's state: the sections so far, the open section and its lines. */
  datatype ParseState = ParseState(sections: seq<SummarySection>, current: Option<string>, content: seq<string>)

  const Start := ParseState([], None, [])

  /** The open section, closed: its title-cased key and its lines joined by spaces,
      appended when it has any line. */
  function Flush(st: ParseState): seq<SummarySection> {
    if st.current.Some? && st.content != [] then
      st.sections + [SummarySection(Title(st.current.value), Strip(Join(st.content, " ")))]
    else st.sections
  }

  /** One input line: blank lines are skipped; a header line closes the open section and
      opens its own; another line joins the open section once cleaned, if non-empty. */
  function Step(st: ParseState, raw: string): ParseState {
    var line := Strip(raw);
    if line == [] then st
    else match HeaderKey(line)
      case Some(key) => ParseState(Flush(st), Some(key), [])
      case None =>
        if st.current.Some? && CleanLine(line) != [] then st.(content := st.content + [CleanLine(line)])
        else st
  }

  /** The sections the structured parse finds. */
  function ParsedSections(text: string): seq<SummarySection> {
    Flush(Seqs.FoldL(Step, Start, Split(text, '\n')))
  }

  /** `_parse_structured_summary`: the parsed sections, or the three simple sections
      when fewer than three parse. */
  function ParseStructuredSummary(text: string): (r: seq<SummarySection>)
    ensures |r| >= MinStructuredSections
  {
    var parsed := ParsedSections(text);
    if |parsed| < MinStructuredSections then CreateSimpleSections(text) else parsed
  }

  /** The parser's loop. */
  method ParseSummary(summaryText: string) returns (sections: seq<SummarySection>)
    ensures sections == ParseStructuredSummary(summaryText)
  {
    var lines := Split(summaryText, '\n');
    sections := [];
    var currentSection: Option<string> := None;
    var currentContent: seq<string> := [];
    for i := 0 to |lines|
      invariant ParseState(sections, currentSection, currentContent) == Seqs.FoldL(Step, Start, lines[..i])
    {
      ghost var before := ParseState(sections, currentSection, currentContent);
      var line := Strip(lines[i]);
      if line != [] {
        var header := FindHeaderKey(SectionHeaders, line);
        if header.Some? {
          if currentSection.Some? && currentContent != [] {
            sections := sections + [SummarySection(Title(currentSection.value), Strip(Join(currentContent, " ")))];
          }
          currentSection := header;
          currentContent := [];
        } else if currentSection.Some? {
          var cleanLine := CleanLine(line);
          if cleanLine != [] {
            currentContent := currentContent + [cleanLine];
          }
        }
      }
      assert ParseState(sections, currentSection, currentContent) == Step(before, lines[i]);
      Seqs.FoldLStep(Step, Start, lines, i);
    }
    assert lines[..|lines|] == lines;
    if currentSection.Some? && currentContent != [] {
      sections := sections + [SummarySection(Title(currentSection.value), Strip(Join(currentContent, " ")))];
    }
    if |sections| < MinStructuredSections {
      sections := CreateSimpleSections(summaryText);
    }
  }

  /** One of the five canonical section titles. */
  predicate CanonicalTitle(title: string) {
    || title == Title("problem") || title == Title("methods") || title == Title("results")
    || title == Title("implications") || title == Title("limitations")
  }

  /** What the parser keeps: closed sections with a canonical title and non-empty
      content, an open section with one of the five keys, and non-empty trimmed lines. */
  predicate WellFormed(st: ParseState) {
    && (forall k | 0 <= k < |st.sections| :: st.sections[k].content != [] && CanonicalTitle(st.sections[k].title))
    && (st.current.Some? ==> SectionKey(st.current.value))
    && (forall k | 0 <= k < |st.content| :: st.content[k] != [] && Trimmed(st.content[k]))
  }

  /** Non-empty trimmed lines joined by single spaces give non-empty trimmed text. */
  lemma {:induction false} JoinTrimmed(parts: seq<string>)
    requires parts != []
    requires forall k | 0 <= k < |parts| :: parts[k] != [] && Trimmed(parts[k])
    ensures var j := Join(parts, " "); j != [] && Trimmed(j) && j[0] == parts[0][0]
  {
    if |parts| > 1 {
      var rest := Join(parts[1..], " ");
      JoinTrimmed(parts[1..]);
      var j := parts[0] + " " + rest;
      assert Join(parts, " ") == j;
      assert j[0] == parts[0][0];
      assert j[|j| - 1] == rest[|rest| - 1];
    }
  }

  /** Each section key title-cases to a canonical title. */
  lemma SectionKeyTitle(key: string)
    requires SectionKey(key)
    ensures CanonicalTitle(Title(key))
  {
    if key == "problem" {
    } else if key == "methods" {
    } else if key == "results" {
    } else if key == "implications" {
    } else {
    }
  }

  /** Non-empty trimmed lines joined by single spaces are their own strip. */
  lemma StripJoined(parts: seq<string>)
    requires parts != []
    requires forall k | 0 <= k < |parts| :: parts[k] != [] && Trimmed(parts[k])
    ensures Strip(Join(parts, " ")) == Join(parts, " ") != []
  {
    JoinTrimmed(parts);
    StripTrimmed(Join(parts, " "));
  }

  /** Closing a well-formed state adds at most one section: the open key, title-cased,
      with the open lines joined by single spaces (stripping changes nothing). */
  lemma FlushSpec(st: ParseState)
    requires WellFormed(st)
    ensures st.current.Some? && st.content != [] ==>
      Flush(st) == st.sections + [SummarySection(Title(st.current.value), Join(st.content, " "))]
    ensures st.current.None? || st.content == [] ==> Flush(st) == st.sections
    ensures forall k | 0 <= k < |Flush(st)| :: Flush(st)[k].content != [] && CanonicalTitle(Flush(st)[k].title)
  {
    if st.current.Some? && st.content != [] {
      var section := SummarySection(Title(st.current.value), Join(st.content, " "));
      var r := st.sections + [section];
      assert Flush(st) == r by {
        StripJoined(st.content);
      }
      assert section.content != [] && CanonicalTitle(section.title) by {
        StripJoined(st.content);
        SectionKeyTitle(st.current.value);
      }
      forall k | 0 <= k < |r|
        ensures r[k].content != [] && CanonicalTitle(r[k].title)
      {
        if k < |st.sections| {
          assert r[k] == st.sections[k];
        } else {
          assert r[k] == section;
        }
      }
    }
  }

  /** Every step keeps the parser's state well formed. */
  lemma StepWellFormed(st: ParseState, raw: string)
    requires WellFormed(st)
    ensures WellFormed(Step(st, raw))
  {
    var line := Strip(raw);
    if line != [] {
      match HeaderKey(line)
      case Some(key) =>
        FlushSpec(st);
        HeaderKeyIsSectionKey(line);
      case None =>
        StripSpec(Remove(Remove(line, "**"), "#"));
    }
  }

  lemma StepsWellFormed()
    ensures forall st, raw :: WellFormed(st) ==> WellFormed(Step(st, raw))
  {
    forall st, raw | WellFormed(st)
      ensures WellFormed(Step(st, raw))
    {
      StepWellFormed(st, raw);
    }
  }

  /** Every parsed section has a canonical title and non-empty content. */
  lemma ParsedSectionsSpec(text: string)
    ensures forall k | 0 <= k < |ParsedSections(text)| ::
      ParsedSections(text)[k].content != [] && CanonicalTitle(ParsedSections(text)[k].title)
  {
    StepsWellFormed();
    var lines := Split(text, '\n');
    Seqs.FoldLInvariant(Step, WellFormed, Start, lines);
    FlushSpec(Seqs.FoldL(Step, Start, lines));
  }

  /** Lines before the first header line are ignored. */
  lemma PreambleIgnored(preamble: seq<string>, rest: seq<string>)
    requires forall k | 0 <= k < |preamble| :: HeaderKey(Strip(preamble[k])).None?
    ensures Seqs.FoldL(Step, Start, preamble + rest) == Seqs.FoldL(Step, Start, rest)
  {
    Seqs.FoldLIdle(Step, Start, preamble);
    Seqs.FoldLAppend(Step, Start, preamble, rest);
  }

  /** The result always has at least three sections: either those parsed, each with a
      canonical title and content, or the three simple sections. */
  lemma ParseStructuredSpec(text: string)
    ensures var r := ParseStructuredSummary(text);
      || (r == ParsedSections(text) && forall k | 0 <= k < |r| :: r[k].content != [] && CanonicalTitle(r[k].title))
      || (|ParsedSections(text)| < MinStructuredSections && r == CreateSimpleSections(text))
  {
    ParsedSectionsSpec(text);
  }

  // ---------------------------------------------------------------- fallback summary

  /** The distinct section types, in order of first occurrence. */
  function SectionTypes(summaries: seq<ChunkSummary>): seq<string> {
    if summaries == [] then []
    else
      var types := SectionTypes(summaries[..|summaries| - 1]);
      var t := summaries[|summaries| - 1].sectionType;
      if t in types then types else types + [t]
  }

  /** The summaries of the chunks of section type `t`, in order. */
  function SummariesOf(summaries: seq<ChunkSummary>, t: string): seq<string> {
    if summaries == [] then []
    else
      var last := summaries[|summaries| - 1];
      SummariesOf(summaries[..|summaries| - 1], t) + if last.sectionType == t then [last.summary] else []
  }

  /** The section for one type: its title-cased name and its summaries joined by spaces. */
  function GroupSection(summaries: seq<ChunkSummary>, t: string): SummarySection {
    SummarySection(Title(t), Join(SummariesOf(summaries, t), " "))
  }

  const Placeholder := SummarySection("Summary", "Unable to generate structured summary. Please try again.")

  /** `_create_fallback_summary`: one section per section type, in order of first
      occurrence, or the placeholder when there is none. */
  function FallbackSections(summaries: seq<ChunkSummary>): seq<SummarySection> {
    var types := SectionTypes(summaries);
    if types == [] then [Placeholder]
    else seq(|types|, k requires 0 <= k < |types| => GroupSection(summaries, types[k]))
  }

  /** One more chunk summary: its type joins the list if new, and its summary joins the
      group of its type. */
  lemma GroupStep(summaries: seq<ChunkSummary>, i: nat)
    requires i < |summaries|
    ensures var t := summaries[i].sectionType; var types := SectionTypes(summaries[..i]);
      SectionTypes(summaries[..i + 1]) == if t in types then types else types + [t]
    ensures forall t :: (SummariesOf(summaries[..i + 1], t)
      == SummariesOf(summaries[..i], t) + if summaries[i].sectionType == t then [summaries[i].summary] else [])
  {
    assert summaries[..i + 1][..i] == summaries[..i];
  }

  /** The grouping loop's state after the first `n` chunk summaries: `order` lists the
      dictionary's keys in insertion order and `groups` maps each to its summaries. */
  ghost predicate GroupsState(summaries: seq<ChunkSummary>, n: nat, order: seq<string>, groups: map<string, seq<string>>)
    requires n <= |summaries|
  {
    && order == SectionTypes(summaries[..n])
    && (forall t :: t in groups <==> t in order)
    && (forall t | t in groups :: groups[t] == SummariesOf(summaries[..n], t))
  }

  /** One pass of the grouping loop keeps its state: a new type is appended to the key
      order with a group of its own, and the summary joins its type's group. */
  lemma GroupAdvance(summaries: seq<ChunkSummary>, i: nat, order: seq<string>, groups: map<string, seq<string>>,
                     order': seq<string>, groups': map<string, seq<string>>)
    requires i < |summaries| && GroupsState(summaries, i, order, groups)
    requires var t := summaries[i].sectionType;
      t in groups ==> order' == order && groups' == groups[t := groups[t] + [summaries[i].summary]]
    requires var t := summaries[i].sectionType;
      t !in groups ==> order' == order + [t] && groups' == groups[t := [summaries[i].summary]]
    ensures GroupsState(summaries, i + 1, order', groups')
  {
    if summaries[i].sectionType in groups {
      GroupAdvanceKnown(summaries, i, order, groups, groups');
    } else {
      GroupAdvanceNew(summaries, i, order, groups, order', groups');
    }
  }

  /** `GroupAdvance` for a summary whose type already has a group. */
  lemma GroupAdvanceKnown(summaries: seq<ChunkSummary>, i: nat, order: seq<string>, groups: map<string, seq<string>>,
                          groups': map<string, seq<string>>)
    requires i < |summaries| && GroupsState(summaries, i, order, groups)
    requires summaries[i].sectionType in groups
    requires groups' == groups[summaries[i].sectionType := groups[summaries[i].sectionType] + [summaries[i].summary]]
    ensures GroupsState(summaries, i + 1, order, groups')
  {
    GroupStep(summaries, i);
  }

  /** `GroupAdvance` for a summary of a type not seen before. */
  lemma GroupAdvanceNew(summaries: seq<ChunkSummary>, i: nat, order: seq<string>, groups: map<string, seq<string>>,
                        order': seq<string>, groups': map<string, seq<string>>)
    requires i < |summaries| && GroupsState(summaries, i, order, groups)
    requires summaries[i].sectionType !in groups
    requires order' == order + [summaries[i].sectionType] && groups' == groups[summaries[i].sectionType := [summaries[i].summary]]
    ensures GroupsState(summaries, i + 1, order', groups')
  {
    var t := summaries[i].sectionType;
    GroupStep(summaries, i);
    assert SummariesOf(summaries[..i], t) == [] by {
      SectionTypesCover(summaries[..i]);
      SummariesOfAbsent(summaries[..i], t);
    }
  }

  /** The grouping loop of `_create_fallback_summary`, with the dictionary's insertion
      order kept as a list of its keys. */
  method GroupSummaries(summaries: seq<ChunkSummary>) returns (order: seq<string>, groups: map<string, seq<string>>)
    ensures order == SectionTypes(summaries)
    ensures forall t | t in groups :: t in order
    ensures forall k | 0 <= k < |order| :: order[k] in groups && groups[order[k]] == SummariesOf(summaries, order[k])
  {
    order := [];
    groups := map[];
    for i := 0 to |summaries|
      invariant GroupsState(summaries, i, order, groups)
    {
      ghost var order0, groups0 := order, groups;
      var sectionType := summaries[i].sectionType;
      if sectionType !in groups {
        groups := groups[sectionType := []];
        order := order + [sectionType];
      }
      groups := groups[sectionType := groups[sectionType] + [summaries[i].summary]];
      assert GroupsState(summaries, i + 1, order, groups) by {
        if sectionType !in groups0 {
          assert [] + [summaries[i].summary] == [summaries[i].summary];
          assert groups == groups0[sectionType := [summaries[i].summary]];
        }
        GroupAdvance(summaries, i, order0, groups0, order, groups);
      }
    }
    assert summaries[..|summaries|] == summaries;
  }

  /** The section-building loop of `_create_fallback_summary`: one section per group,
      titled after its type, in the order the types were first met. */
  method GroupSections(summaries: seq<ChunkSummary>, order: seq<string>, groups: map<string, seq<string>>)
    returns (sections: seq<SummarySection>)
    requires forall k | 0 <= k < |order| :: order[k] in groups && groups[order[k]] == SummariesOf(summaries, order[k])
    ensures |sections| == |order|
    ensures forall k | 0 <= k < |order| :: sections[k] == GroupSection(summaries, order[k])
  {
    sections := [];
    for j := 0 to |order|
      invariant |sections| == j
      invariant forall k | 0 <= k < j :: sections[k] == GroupSection(summaries, order[k])
    {
      var section := SummarySection(Title(order[j]), Join(groups[order[j]], " "));
      sections := sections + [section];
    }
  }

  /** `_create_fallback_summary`: groups the chunk summaries, then builds one section per
      group in insertion order, or the placeholder when there is none. */
  method CreateFallbackSummary(summaries: seq<ChunkSummary>) returns (sections: seq<SummarySection>)
    ensures sections == FallbackSections(summaries)
  {
    var order, groups := GroupSummaries(summaries);
    sections := GroupSections(summaries, order, groups);
    if sections == [] {
      sections := [Placeholder];
    } else {
      assert sections == seq(|order|, k requires 0 <= k < |order| => GroupSection(summaries, order[k]));
    }
  }

  /** Every chunk's type is listed, and every listed type is some chunk's. */
  lemma {:induction false} SectionTypesCover(summaries: seq<ChunkSummary>)
    ensures forall i | 0 <= i < |summaries| :: summaries[i].sectionType in SectionTypes(summaries)
    ensures forall k | 0 <= k < |SectionTypes(summaries)| ::
      exists i | 0 <= i < |summaries| :: summaries[i].sectionType == SectionTypes(summaries)[k]
  {
    if summaries != [] {
      var init := summaries[..|summaries| - 1];
      var types := SectionTypes(summaries);
      SectionTypesCover(init);
      assert forall i | 0 <= i < |init| :: summaries[i] == init[i];
      forall i | 0 <= i < |summaries|
        ensures summaries[i].sectionType in types
      {
        if i < |init| {
          assert summaries[i].sectionType in SectionTypes(init);
        }
      }
      forall k | 0 <= k < |SectionTypes(summaries)|
        ensures exists i | 0 <= i < |summaries| :: summaries[i].sectionType == SectionTypes(summaries)[k]
      {
        if k < |SectionTypes(init)| {
          var i :| 0 <= i < |init| && init[i].sectionType == types[k];
          assert summaries[i] == init[i];
        } else {
          assert summaries[|summaries| - 1].sectionType == types[k];
        }
      }
    } else {
      assert SectionTypes(summaries) == [];
    }
  }

  /** A type no chunk has has no summaries. */
  lemma {:induction false} SummariesOfAbsent(summaries: seq<ChunkSummary>, t: string)
    requires forall i | 0 <= i < |summaries| :: summaries[i].sectionType != t
    ensures SummariesOf(summaries, t) == []
  {
    if summaries != [] {
      SummariesOfAbsent(summaries[..|summaries| - 1], t);
    }
  }

  /** The types are listed once each, in order of first occurrence: `first[k]` is the
      first chunk of type `k`. */
  lemma {:induction false} SectionTypesOrder(summaries: seq<ChunkSummary>) returns (first: seq<nat>)
    ensures var types := SectionTypes(summaries);
      && |first| == |types|
      && (forall k | 0 <= k < |types| ::
            && first[k] < |summaries| && summaries[first[k]].sectionType == types[k]
            && forall i | 0 <= i < first[k] :: summaries[i].sectionType != types[k])
      && (forall a, b | 0 <= a < b < |types| :: first[a] < first[b])
  {
    if summaries == [] {
      first := [];
    } else {
      var init := summaries[..|summaries| - 1];
      var n := |summaries| - 1;
      var first0 := SectionTypesOrder(init);
      assert forall i | 0 <= i < n :: summaries[i] == init[i];
      var t := summaries[n].sectionType;
      var types0 := SectionTypes(init);
      if t in types0 {
        assert SectionTypes(summaries) == types0;
        first := first0;
      } else {
        assert SectionTypes(summaries) == types0 + [t];
        first := first0 + [n];
        forall i | 0 <= i < n
          ensures summaries[i].sectionType != t
        {
          SectionTypesCover(init);
          assert init[i].sectionType in types0;
        }
      }
    }
  }

  /** No type is listed twice. */
  lemma SectionTypesDistinct(summaries: seq<ChunkSummary>)
    ensures var types := SectionTypes(summaries);
      forall a, b | 0 <= a < b < |types| :: types[a] != types[b]
  {
    var first := SectionTypesOrder(summaries);
  }

  /** Without chunk summaries the fallback is the placeholder alone; otherwise it has one
      section per type, holding that type's summaries joined by spaces. */
  lemma FallbackSpec(summaries: seq<ChunkSummary>)
    ensures summaries == [] ==> FallbackSections(summaries) == [Placeholder]
    ensures summaries != [] ==>
      var types := SectionTypes(summaries); var r := FallbackSections(summaries);
      && |r| == |types|
      && forall k | 0 <= k < |r| :: r[k] == SummarySection(Title(types[k]), Join(SummariesOf(summaries, types[k]), " "))
  {
    SectionTypesCover(summaries);
    if summaries != [] {
      assert summaries[0].sectionType in SectionTypes(summaries);
    }
  }

  /** Every chunk summary lands in the section of its type: the group sizes add up to
      the number of chunk summaries. */
  function GroupSizes(summaries: seq<ChunkSummary>, types: seq<string>): nat {
    if types == [] then 0 else |SummariesOf(summaries, types[0])| + GroupSizes(summaries, types[1..])
  }

  /** One more chunk summary adds one to the group of its type and nothing elsewhere. */
  lemma {:induction false} GroupSizesStep(summaries: seq<ChunkSummary>, last: ChunkSummary, types: seq<string>)
    requires forall a, b | 0 <= a < b < |types| :: types[a] != types[b]
    ensures GroupSizes(summaries + [last], types) == GroupSizes(summaries, types) + if last.sectionType in types then 1 else 0
  {
    if types != [] {
      var s := summaries + [last];
      assert s[..|s| - 1] == summaries;
      GroupSizesStep(summaries, last, types[1..]);
      if last.sectionType == types[0] {
        assert last.sectionType !in types[1..];
      }
    }
  }

  /** A type with no summaries adds nothing. */
  lemma GroupSizesAppendEmpty(summaries: seq<ChunkSummary>, types: seq<string>, t: string)
    requires SummariesOf(summaries, t) == []
    ensures GroupSizes(summaries, types + [t]) == GroupSizes(summaries, types)
    decreases |types|
  {
    if types == [] {
      assert [t][1..] == [];
    } else {
      assert (types + [t])[1..] == types[1..] + [t];
      GroupSizesAppendEmpty(summaries, types[1..], t);
    }
  }

  /** The fallback's groups partition the chunk summaries. */
  lemma {:induction false} GroupsPartition(summaries: seq<ChunkSummary>)
    ensures GroupSizes(summaries, SectionTypes(summaries)) == |summaries|
  {
    if summaries != [] {
      var init := summaries[..|summaries| - 1];
      var last := summaries[|summaries| - 1];
      var types := SectionTypes(init);
      GroupsPartition(init);
      assert summaries == init + [last];
      if last.sectionType in types {
        assert GroupSizes(summaries, types) == GroupSizes(init, types) + 1 by {
          SectionTypesDistinct(init);
          GroupSizesStep(init, last, types);
        }
      } else {
        var types' := types + [last.sectionType];
        assert GroupSizes(init, types') == GroupSizes(init, types) by {
          SectionTypesCover(init);
          SummariesOfAbsent(init, last.sectionType);
          GroupSizesAppendEmpty(init, types, last.sectionType);
        }
        assert GroupSizes(summaries, types') == GroupSizes(init, types') + 1 by {
          assert SectionTypes(summaries) == types';
          SectionTypesDistinct(summaries);
          GroupSizesStep(init, last, types');
        }
      }
    }
  }

  // ---------------------------------------------------------------- chunk outcomes

  /** `_summarize_single_chunk`, given the client's answer for the chunk: a failure (or
      a timeout) gives no summary. */
  function SummarizeSingleChunk(chunk: ChunkManager.TextChunk, response: Result<string, string>): Option<ChunkSummary> {
    match response
    case Success(content) =>
      Some(ChunkSummary(chunk.chunkIndex, chunk.section, chunk.sectionType, content, ExtractKeyPoints(content)))
    case Failure(_) => None
  }

  /** The successful chunk summaries, in chunk order, or the all-failed error. */
  function CollectSummaries(results: seq<Option<ChunkSummary>>): Result<seq<ChunkSummary>, string> {
    var successful := Seqs.Somes(results);
    if successful == [] then Failure(AllFailedError) else Success(successful)
  }

  /** The result loop of `_summarize_chunks`. */
  method SummarizeChunks(results: seq<Option<ChunkSummary>>) returns (r: Result<seq<ChunkSummary>, string>)
    ensures r == CollectSummaries(results)
  {
    var successfulSummaries: seq<ChunkSummary> := [];
    for i := 0 to |results|
      invariant successfulSummaries == Seqs.Somes(results[..i])
    {
      assert results[..i + 1][..i] == results[..i];
      if results[i].Some? {
        successfulSummaries := successfulSummaries + [results[i].value];
      }
    }
    assert results[..|results|] == results;
    if successfulSummaries == [] {
      return Failure(AllFailedError);
    }
    return Success(successfulSummaries);
  }

  /** Collection fails exactly when every chunk failed; otherwise it keeps every
      successful summary, and only those, in chunk order: the kept summaries come from
      the strictly increasing positions `origin`, which are all the successful ones, so
      each successful chunk gives exactly one entry. */
  lemma CollectSpec(results: seq<Option<ChunkSummary>>) returns (origin: seq<nat>)
    ensures CollectSummaries(results).Failure? <==> forall i | 0 <= i < |results| :: results[i].None?
    ensures CollectSummaries(results).Failure? ==> CollectSummaries(results).error == AllFailedError
    ensures CollectSummaries(results).Success? ==>
      var kept := CollectSummaries(results).value;
      && (forall i | 0 <= i < |results| :: results[i].Some? ==> results[i].value in kept)
      && (forall k | 0 <= k < |kept| :: Some(kept[k]) in results)
    ensures CollectSummaries(results).Success? ==>
      var kept := CollectSummaries(results).value;
      && |origin| == |kept| == Seqs.CountSome(results)
      && (forall a, b | 0 <= a < b < |origin| :: origin[a] < origin[b])
      && (forall k | 0 <= k < |origin| :: origin[k] < |results| && results[origin[k]] == Some(kept[k]))
      && (forall i | 0 <= i < |results| :: results[i].Some? <==> i in origin)
  {
    Seqs.SomeIndicesSpec(results, |results|);
    assert results[..|results|] == results;
    origin := Seqs.SomeIndices(results, |results|);
    Seqs.SomesMembers(results);
    if Seqs.Somes(results) == [] {
      assert forall i | 0 <= i < |results| :: results[i].None?;
    } else {
      var k := Seqs.Somes(results)[0];
      assert Some(k) in results;
    }
  }

  // ---------------------------------------------------------------- aggregation

  /** `_aggregate_summaries`, given the client's answer: the parsed structured summary,
      or the fallback when the call failed (or timed out). */
  function AggregateSummaries(summaries: seq<ChunkSummary>, aggregation: Result<string, string>): Result<seq<SummarySection>, string> {
    if summaries == [] then Failure(NothingToAggregateError)
    else
      match aggregation
      case Success(text) => Success(ParseStructuredSummary(text))
      case Failure(_) => Success(FallbackSections(summaries))
  }

  /** Aggregation fails only without chunk summaries; otherwise it gives at least one
      section, at least three when the client answered, and one per section type when
      it did not. */
  lemma AggregateSpec(summaries: seq<ChunkSummary>, aggregation: Result<string, string>)
    ensures AggregateSummaries(summaries, aggregation).Failure? <==> summaries == []
    ensures summaries != [] && aggregation.Success? ==>
      AggregateSummaries(summaries, aggregation).value == ParseStructuredSummary(aggregation.value)
      && |AggregateSummaries(summaries, aggregation).value| >= MinStructuredSections
    ensures summaries != [] && aggregation.Failure? ==>
      |AggregateSummaries(summaries, aggregation).value| == |SectionTypes(summaries)| >= 1
  {
    if summaries != [] && aggregation.Failure? {
      FallbackSpec(summaries);
      SectionTypesCover(summaries);
      assert summaries[0].sectionType in SectionTypes(summaries);
    }
  }

  // ---------------------------------------------------------------- the pipeline

  /** The outcome of every chunk, in chunk order, as `asyncio.gather` returns them. */
  function ChunkOutcomes(chunks: seq<ChunkManager.TextChunk>, responses: nat -> Result<string, string>)
    : (results: seq<Option<ChunkSummary>>)
    ensures |results| == |chunks|
    ensures forall i | 0 <= i < |chunks| :: results[i] == SummarizeSingleChunk(chunks[i], responses(i))
  {
    seq(|chunks|, i requires 0 <= i < |chunks| => SummarizeSingleChunk(chunks[i], responses(i)))
  }

  /** `generate_summary`, with chunk `i` answered by `responses(i)` and the aggregation
      by `aggregation`. */
  function GenerateSummary(chunks: seq<ChunkManager.TextChunk>, paperTitle: string,
                           responses: nat -> Result<string, string>, aggregation: Result<string, string>)
    : Result<SummaryResult, string>
  {
    if chunks == [] then Failure(NoChunksError)
    else
      var results := ChunkOutcomes(chunks, responses);
      match CollectSummaries(results)
      case Failure(e) => Failure(e)
      case Success(summaries) =>
        match AggregateSummaries(summaries, aggregation)
        case Failure(e) => Failure(e)
        case Success(sections) =>
          Success(SummaryResult(if paperTitle == [] then DefaultTitle else paperTitle, sections, summaries, |chunks|, |summaries|))
  }

  /** The number of chunks below `n` whose summary call succeeded. */
  function Successes(responses: nat -> Result<string, string>, n: nat): nat {
    if n == 0 then 0 else Successes(responses, n - 1) + if responses(n - 1).Success? then 1 else 0
  }

  /** Counting the chunk outcomes counts the successful responses. */
  lemma {:induction false} CountOutcomes(chunks: seq<ChunkManager.TextChunk>, responses: nat -> Result<string, string>,
                                         results: seq<Option<ChunkSummary>>, n: nat)
    requires results == ChunkOutcomes(chunks, responses)
    requires n <= |chunks|
    ensures Seqs.CountSome(results[..n]) == Successes(responses, n)
  {
    if n > 0 {
      CountOutcomes(chunks, responses, results, n - 1);
      assert results[..n][..n - 1] == results[..n - 1];
    }
  }

  /** The pipeline rejects an empty chunk list and fails when every chunk failed;
      otherwise it counts every chunk, reports as successful exactly the chunks whose
      call succeeded (a success rate in (0, 1]), keeps the title or the default one, and
      has at least one section. */
  lemma GenerateSummarySpec(chunks: seq<ChunkManager.TextChunk>, paperTitle: string,
                            responses: nat -> Result<string, string>, aggregation: Result<string, string>)
    ensures chunks == [] ==> GenerateSummary(chunks, paperTitle, responses, aggregation) == Failure(NoChunksError)
    ensures chunks != [] ==>
      (GenerateSummary(chunks, paperTitle, responses, aggregation) == Failure(AllFailedError)
       <==> forall i | 0 <= i < |chunks| :: responses(i).Failure?)
    ensures GenerateSummary(chunks, paperTitle, responses, aggregation).Success? ==>
      var r := GenerateSummary(chunks, paperTitle, responses, aggregation).value;
      && r.chunkCount == |chunks|
      && 1 <= r.successCount <= r.chunkCount
      && r.successCount == |r.chunkSummaries| == Successes(responses, |chunks|)
      && r.title == (if paperTitle == [] then DefaultTitle else paperTitle)
      && |r.sections| >= 1
  {
    if chunks != [] {
      var results := ChunkOutcomes(chunks, responses);
      var _ := CollectSpec(results);
      CountOutcomes(chunks, responses, results, |chunks|);
      assert results[..|chunks|] == results;
      assert forall i | 0 <= i < |chunks| :: results[i].None? <==> responses(i).Failure?;
      match CollectSummaries(results)
      case Failure(e) =>
      case Success(summaries) =>
        AggregateSpec(summaries, aggregation);
    }
  }

  /** When some chunk's call succeeded the pipeline succeeds, and each chunk summary in
      the result is the answer for one of the chunks, in chunk order, carrying that
      chunk's index, section and type and its own key points. */
  lemma GenerateSummaryOrigins(chunks: seq<ChunkManager.TextChunk>, paperTitle: string,
                               responses: nat -> Result<string, string>, aggregation: Result<string, string>)
    returns (origin: seq<nat>)
    requires exists i | 0 <= i < |chunks| :: responses(i).Success?
    ensures GenerateSummary(chunks, paperTitle, responses, aggregation).Success?
    ensures var cs := GenerateSummary(chunks, paperTitle, responses, aggregation).value.chunkSummaries;
      && |origin| == |cs|
      && (forall a, b | 0 <= a < b < |origin| :: origin[a] < origin[b])
      && forall k | 0 <= k < |cs| ::
        && origin[k] < |chunks|
        && responses(origin[k]) == Success(cs[k].summary)
        && cs[k].chunkIndex == chunks[origin[k]].chunkIndex
        && cs[k].section == chunks[origin[k]].section
        && cs[k].sectionType == chunks[origin[k]].sectionType
        && cs[k].keyPoints == ExtractKeyPoints(cs[k].summary)
    ensures forall i | 0 <= i < |chunks| :: responses(i).Success? <==> i in origin
  {
    GenerateSummaryCollected(chunks, paperTitle, responses, aggregation);
    origin := CollectOrigins(chunks, responses);
  }

  /** The collected chunk summaries answer the chunks whose call succeeded, one each, in
      chunk order. */
  lemma CollectOrigins(chunks: seq<ChunkManager.TextChunk>, responses: nat -> Result<string, string>)
    returns (origin: seq<nat>)
    requires CollectSummaries(ChunkOutcomes(chunks, responses)).Success?
    ensures var cs := CollectSummaries(ChunkOutcomes(chunks, responses)).value;
      && |origin| == |cs|
      && (forall a, b | 0 <= a < b < |origin| :: origin[a] < origin[b])
      && forall k | 0 <= k < |cs| ::
        && origin[k] < |chunks|
        && responses(origin[k]) == Success(cs[k].summary)
        && cs[k].chunkIndex == chunks[origin[k]].chunkIndex
        && cs[k].section == chunks[origin[k]].section
        && cs[k].sectionType == chunks[origin[k]].sectionType
        && cs[k].keyPoints == ExtractKeyPoints(cs[k].summary)
    ensures forall i | 0 <= i < |chunks| :: responses(i).Success? <==> i in origin
  {
    var results := ChunkOutcomes(chunks, responses);
    origin := CollectSpec(results);
    var cs := CollectSummaries(results).value;
    forall k | 0 <= k < |cs|
      ensures responses(origin[k]) == Success(cs[k].summary)
      ensures cs[k].chunkIndex == chunks[origin[k]].chunkIndex && cs[k].section == chunks[origin[k]].section
      ensures cs[k].sectionType == chunks[origin[k]].sectionType && cs[k].keyPoints == ExtractKeyPoints(cs[k].summary)
    {
      OutcomeFields(chunks[origin[k]], responses(origin[k]), cs[k]);
    }
    forall i | 0 <= i < |chunks|
      ensures responses(i).Success? <==> i in origin
    {
      assert results[i].Some? <==> responses(i).Success?;
    }
  }

  /** When some chunk's call succeeded the pipeline succeeds, with the collected chunk
      summaries. */
  lemma GenerateSummaryCollected(chunks: seq<ChunkManager.TextChunk>, paperTitle: string,
                                 responses: nat -> Result<string, string>, aggregation: Result<string, string>)
    requires exists i | 0 <= i < |chunks| :: responses(i).Success?
    ensures CollectSummaries(ChunkOutcomes(chunks, responses)).Success?
    ensures GenerateSummary(chunks, paperTitle, responses, aggregation).Success?
    ensures GenerateSummary(chunks, paperTitle, responses, aggregation).value.chunkSummaries
         == CollectSummaries(ChunkOutcomes(chunks, responses)).value
  {
    var results := ChunkOutcomes(chunks, responses);
    var w :| 0 <= w < |chunks| && responses(w).Success?;
    assert results[w].Some?;
    var _ := CollectSpec(results);
    AggregateSpec(CollectSummaries(results).value, aggregation);
  }

  /** A chunk summary is the successful answer for its chunk, with the chunk's index,
      section and type and its own key points. */
  lemma OutcomeFields(chunk: ChunkManager.TextChunk, response: Result<string, string>, c: ChunkSummary)
    requires SummarizeSingleChunk(chunk, response) == Some(c)
    ensures response == Success(c.summary)
    ensures c.chunkIndex == chunk.chunkIndex && c.section == chunk.section && c.sectionType == chunk.sectionType
    ensures c.keyPoints == ExtractKeyPoints(c.summary)
  {
  }

  /** With the Gemini client answering, every chunk summary in the result has between
      10 and 600 characters. */
  lemma ClientSummaryLengths(chunks: seq<ChunkManager.TextChunk>, paperTitle: string,
                             chunkReplies: nat -> nat -> GeminiClient.Reply, aggregation: Result<string, string>)
    requires exists i | 0 <= i < |chunks| :: ClientResponses(chunkReplies)(i).Success?
    ensures GenerateSummary(chunks, paperTitle, ClientResponses(chunkReplies), aggregation).Success?
    ensures var cs := GenerateSummary(chunks, paperTitle, ClientResponses(chunkReplies), aggregation).value.chunkSummaries;
      forall k | 0 <= k < |cs| ::
        GeminiClient.MinResponseLength <= |cs[k].summary| <= GeminiClient.ChunkSummaryLimit
  {
    GenerateSummaryCollected(chunks, paperTitle, ClientResponses(chunkReplies), aggregation);
    ClientCollectedLengths(chunks, chunkReplies);
  }

  /** The same bound on the collected chunk summaries. */
  lemma ClientCollectedLengths(chunks: seq<ChunkManager.TextChunk>, chunkReplies: nat -> nat -> GeminiClient.Reply)
    requires CollectSummaries(ChunkOutcomes(chunks, ClientResponses(chunkReplies))).Success?
    ensures var cs := CollectSummaries(ChunkOutcomes(chunks, ClientResponses(chunkReplies))).value;
      forall k | 0 <= k < |cs| ::
        GeminiClient.MinResponseLength <= |cs[k].summary| <= GeminiClient.ChunkSummaryLimit
  {
    var origin := CollectOrigins(chunks, ClientResponses(chunkReplies));
    var cs := CollectSummaries(ChunkOutcomes(chunks, ClientResponses(chunkReplies))).value;
    forall k | 0 <= k < |cs|
      ensures GeminiClient.MinResponseLength <= |cs[k].summary| <= GeminiClient.ChunkSummaryLimit
    {
      GeminiClient.CallChunkSummaryLength(chunkReplies(origin[k]));
    }
  }

  /** The client's answer for chunk `i`, with the backend replying `chunkReplies(i)(j)`
      on attempt `j`. */
  function ClientResponses(chunkReplies: nat -> nat -> GeminiClient.Reply): nat -> Result<string, string> {
    (i: nat) => GeminiClient.CallWithRetries(chunkReplies(i), GeminiClient.ChunkSummarization).result
  }
}
