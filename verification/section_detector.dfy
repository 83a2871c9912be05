/** Detection of the standard sections of a research paper: a line scanner finds
    candidate headings, the best heading of each type is kept, consecutive
    headings delimit half-open spans of the text, and the spans are filtered,
    truncated and whitespace-normalised. */
module SectionDetector {
  import opened Wrappers
  import opened Text
  import Seqs
  import opened Whitespace

  datatype SectionType =
    | Abstract | Introduction | Methodology | Results | Discussion
    | Conclusion | References | Acknowledgments | Appendix | Unknown

  /** The string value of a section type. */
  function Value(t: SectionType): string {
    match t
    case Abstract => "abstract"
    case Introduction => "introduction"
    case Methodology => "methodology"
    case Results => "results"
    case Discussion => "discussion"
    case Conclusion => "conclusion"
    case References => "references"
    case Acknowledgments => "acknowledgments"
    case Appendix => "appendix"
    case Unknown => "unknown"
  }

  /** The order in which the heading-pattern table is consulted. */
  const PatternOrder: seq<SectionType> :=
    [Abstract, Introduction, Methodology, Results, Discussion, Conclusion, References, Acknowledgments, Appendix]

  const MinSectionLength: nat := 50
  const MaxSectionLength: nat := 50000
  /** Markers below this confidence (in tenths) are discarded. */
  const MinConfidence: nat := 4
  /** Confidence of the whole-text fallback section (in tenths). */
  const FullConfidence: nat := 10

  /** `LineMatches(t, line)`: one of the heading patterns of type `t` matches somewhere in
      the stripped line `line`, ignoring case.  The regular expressions themselves are not
      part of the model. */
  type HeadingMatcher = (SectionType, string) -> bool

  /** A candidate heading: offset of its line, the stripped line, its type and its
      confidence in tenths. */
  datatype Marker = Marker(pos: nat, header: string, sectionType: SectionType, confidence: nat)

  datatype AcademicSection = AcademicSection(
    name: string,
    sectionType: SectionType,
    content: string,
    startPosition: nat,
    endPosition: nat,
    confidence: nat)

  // ---------------------------------------------------------------- heading type

  /** The first type, from index `k` of the table on, with a matching pattern. */
  function FirstMatchFrom(matches: HeadingMatcher, line: string, k: nat): (r: Option<SectionType>)
    requires k <= |PatternOrder|
    ensures r.None? <==> forall j | k <= j < |PatternOrder| :: !matches(PatternOrder[j], line)
    ensures r.Some? ==> matches(r.value, line) && r.value != Unknown
    decreases |PatternOrder| - k
  {
    if k == |PatternOrder| then None
    else if matches(PatternOrder[k], line) then Some(PatternOrder[k])
    else FirstMatchFrom(matches, line, k + 1)
  }

  /** The type a heading line is given: the first type in table order that matches. */
  function FirstMatch(matches: HeadingMatcher, line: string): Option<SectionType> {
    FirstMatchFrom(matches, line, 0)
  }

  /** Types earlier in the table than the first match do not match. */
  lemma {:induction false} FirstMatchSkip(matches: HeadingMatcher, line: string, k: nat)
    requires k <= |PatternOrder|
    requires forall j | 0 <= j < k :: !matches(PatternOrder[j], line)
    ensures FirstMatch(matches, line) == FirstMatchFrom(matches, line, k)
  {
    if k > 0 {
      FirstMatchSkip(matches, line, k - 1);
    }
  }

  // ---------------------------------------------------------------- confidence

  /** Confidence, in tenths, of the stripped heading `line` of type `t` found on line
      `lineIdx` of a text of `totalLines` lines.  The relative position
      `lineIdx / totalLines` is compared with 0.2, 0.3, 0.7 and 0.8 by cross-multiplication. */
  function Confidence(line: string, t: SectionType, lineIdx: nat, totalLines: nat): (c: nat)
    requires totalLines > 0
    ensures 5 <= c <= 10
    ensures Strip(Lower(line)) == Value(t) && |Strip(line)| < 30 ==> c == 10
  {
    var exact := NameScore(line, t);
    var numbered := if TrimStart(line) != [] && IsDigit(TrimStart(line)[0]) then 2 else 0;
    var short := if |Strip(line)| < 30 then 2 else 0;
    var upper := if IsUpperStr(Strip(line)) then 1 else 0;
    var positional := PositionScore(t, lineIdx, totalLines);
    Min(5 + exact + numbered + short + upper + positional, 10)
  }

  /** The boost for a heading that names its type exactly, or in the plural. */
  function NameScore(line: string, t: SectionType): (s: nat)
    ensures s <= 3
    ensures Strip(Lower(line)) == Value(t) ==> s == 3
  {
    var name := Strip(Lower(line));
    if name == Value(t) || name == Value(t) + "s" then 3 else 0
  }

  /** The boost for a heading found where its type usually sits. */
  function PositionScore(t: SectionType, lineIdx: nat, totalLines: nat): (s: nat)
    ensures s <= 3
  {
    if t == Abstract && lineIdx * 10 < 2 * totalLines then 2
    else if t == Introduction && lineIdx * 10 < 3 * totalLines then 1
    else if t == Conclusion && lineIdx * 10 > 7 * totalLines then 2
    else if t == References && lineIdx * 10 > 8 * totalLines then 3
    else 0
  }

  // ---------------------------------------------------------------- line offsets

  /** Offset in the text of the first character of line `i`: every earlier line plus the
      newline that ended it. */
  function LineOffset(lines: seq<string>, i: nat): nat
    requires i <= |lines|
  {
    if i == 0 then 0 else |lines[0]| + 1 + LineOffset(lines[1..], i - 1)
  }

  lemma {:induction false} LineOffsetNext(lines: seq<string>, i: nat)
    requires i < |lines|
    ensures LineOffset(lines, i + 1) == LineOffset(lines, i) + |lines[i]| + 1
  {
    if i > 0 {
      LineOffsetNext(lines[1..], i - 1);
      assert lines[1..][i - 1] == lines[i];
    }
  }

  /** Line `i` of a newline-joined text sits at `LineOffset(lines, i)`. */
  lemma {:induction false} LineOffsetLocates(text: string, lines: seq<string>, i: nat)
    requires text == Join(lines, "\n")
    requires i < |lines|
    ensures LineOffset(lines, i) + |lines[i]| <= |text|
    ensures text[LineOffset(lines, i)..LineOffset(lines, i) + |lines[i]|] == lines[i]
    decreases i
  {
    if i == 0 {
      if |lines| > 1 {
        Seqs.SliceLeft(lines[0] + "\n", Join(lines[1..], "\n"), 0, |lines[0]|);
        Seqs.SliceLeft(lines[0], "\n", 0, |lines[0]|);
      }
    } else {
      var rest := Join(lines[1..], "\n");
      var h := |lines[0]| + 1;
      assert text == (lines[0] + "\n") + rest;
      LineOffsetLocates(rest, lines[1..], i - 1);
      var o := LineOffset(lines[1..], i - 1);
      assert lines[1..][i - 1] == lines[i];
      Seqs.SliceRight(lines[0] + "\n", rest, h + o, h + o + |lines[i]|);
    }
  }

  // ---------------------------------------------------------------- marker scan

  /** The marker line `i` contributes, if any: a non-blank line whose stripped form matches
      a heading pattern. */
  function LineMarker(lines: seq<string>, matches: HeadingMatcher, i: nat): (r: Option<Marker>)
    requires i < |lines|
    ensures r.Some? ==>
      && r.value.pos == LineOffset(lines, i)
      && r.value.header == Strip(lines[i]) && r.value.header != []
      && r.value.sectionType != Unknown
      && 5 <= r.value.confidence <= 10
  {
    var stripped := Strip(lines[i]);
    if stripped == [] then None
    else
      match FirstMatch(matches, stripped)
      case None => None
      case Some(t) => Some(Marker(LineOffset(lines, i), stripped, t, Confidence(stripped, t, i, |lines|)))
  }

  /** The candidate marker of every line. */
  function Candidates(lines: seq<string>, matches: HeadingMatcher): (r: seq<Option<Marker>>)
    ensures |r| == |lines|
  {
    seq(|lines|, i requires 0 <= i < |lines| => LineMarker(lines, matches, i))
  }

  /** The markers of the first `n` lines, in line order. */
  function Scan(lines: seq<string>, matches: HeadingMatcher, n: nat): seq<Marker>
    requires n <= |lines|
  {
    Seqs.Somes(Candidates(lines, matches)[..n])
  }

  /** No line of the text is a heading. */
  predicate NoHeadings(text: string, matches: HeadingMatcher) {
    var lines := Split(text, '\n');
    forall i | 0 <= i < |lines| :: LineMarker(lines, matches, i).None?
  }

  /** Offsets grow with the line number. */
  lemma {:induction false} LineOffsetMonotone(lines: seq<string>, i: nat, j: nat)
    requires i < j <= |lines|
    ensures LineOffset(lines, i) < LineOffset(lines, j)
    decreases j - i
  {
    LineOffsetNext(lines, i);
    if i + 1 < j {
      LineOffsetMonotone(lines, i + 1, j);
    }
  }

  /** Markers come out in strictly increasing position order. */
  lemma ScanIncreasing(lines: seq<string>, matches: HeadingMatcher)
    ensures forall a, b | 0 <= a < b < |Scan(lines, matches, |lines|)| ::
      Scan(lines, matches, |lines|)[a].pos < Scan(lines, matches, |lines|)[b].pos
  {
    var cands := Candidates(lines, matches);
    var ms := Scan(lines, matches, |lines|);
    Seqs.SomeIndicesSpec(cands, |lines|);
    var idx := Seqs.SomeIndices(cands, |lines|);
    forall a, b | 0 <= a < b < |ms|
      ensures ms[a].pos < ms[b].pos
    {
      assert cands[idx[a]] == LineMarker(lines, matches, idx[a]);
      assert cands[idx[b]] == LineMarker(lines, matches, idx[b]);
      LineOffsetMonotone(lines, idx[a], idx[b]);
    }
  }

  /** Every marker comes from a heading line: it sits at that line's offset, its header is
      the stripped line, and its confidence lies between 0.5 and 1.0. */
  lemma ScanFromLines(lines: seq<string>, matches: HeadingMatcher, k: nat) returns (i: nat)
    requires k < |Scan(lines, matches, |lines|)|
    ensures i < |lines|
    ensures LineMarker(lines, matches, i) == Some(Scan(lines, matches, |lines|)[k])
  {
    var cands := Candidates(lines, matches);
    Seqs.SomeIndicesSpec(cands, |lines|);
    i := Seqs.SomeIndices(cands, |lines|)[k];
  }

  /** Every marker position lies inside the text. */
  lemma ScanInText(text: string, lines: seq<string>, matches: HeadingMatcher, k: nat)
    requires lines == Split(text, '\n')
    requires k < |Scan(lines, matches, |lines|)|
    ensures Scan(lines, matches, |lines|)[k].pos <= |text|
  {
    JoinSplit(text, '\n');
    var i := ScanFromLines(lines, matches, k);
    LineOffsetLocates(text, lines, i);
  }

  /** A heading line gives the scan at least one marker. */
  lemma ScanHasHeading(lines: seq<string>, matches: HeadingMatcher, i: nat)
    requires i < |lines| && LineMarker(lines, matches, i).Some?
    ensures Scan(lines, matches, |lines|) != []
  {
    var cands := Candidates(lines, matches);
    Seqs.SomeIndicesSpec(cands, |lines|);
    assert cands[i].Some?;
    assert i in Seqs.SomeIndices(cands, |lines|);
  }

  /** The scan finds no marker exactly when no line is a heading. */
  lemma ScanEmpty(text: string, lines: seq<string>, matches: HeadingMatcher)
    requires lines == Split(text, '\n')
    ensures Scan(lines, matches, |lines|) == [] <==> NoHeadings(text, matches)
  {
    if Scan(lines, matches, |lines|) != [] {
      var i := ScanFromLines(lines, matches, 0);
      assert LineMarker(lines, matches, i).Some?;
    }
    if !NoHeadings(text, matches) {
      var i :| 0 <= i < |lines| && LineMarker(lines, matches, i).Some?;
      ScanHasHeading(lines, matches, i);
    }
  }

  /** One more line extends the scan by that line's marker, if any. */
  lemma ScanNext(lines: seq<string>, matches: HeadingMatcher, i: nat)
    requires i < |lines|
    ensures Scan(lines, matches, i + 1) ==
      Scan(lines, matches, i) + if LineMarker(lines, matches, i).Some? then [LineMarker(lines, matches, i).value] else []
  {
    var cands := Candidates(lines, matches);
    Seqs.SomesStep(cands, i);
    assert cands[i] == LineMarker(lines, matches, i);
  }

  /** The body of `_find_section_markers`' loop for one line: try the types in table order
      on the stripped line and append a marker for the first one that matches. */
  method ScanLine(lines: seq<string>, matches: HeadingMatcher, lineIdx: nat, currentPos: nat, markers: seq<Marker>)
    returns (markers': seq<Marker>)
    requires lineIdx < |lines| && currentPos == LineOffset(lines, lineIdx)
    requires markers == Scan(lines, matches, lineIdx)
    ensures markers' == Scan(lines, matches, lineIdx + 1)
  {
    ScanNext(lines, matches, lineIdx);
    markers' := markers;
    var lineStripped := Strip(lines[lineIdx]);
    if lineStripped == [] {
      return;
    }
    var found := MatchingType(matches, lineStripped);
    if found.Some? {
      var t := found.value;
      var confidence := Confidence(lineStripped, t, lineIdx, |lines|);
      markers' := markers + [Marker(currentPos, lineStripped, t, confidence)];
      LineMarkerFound(lines, matches, lineIdx, t);
    }
  }

  /** The inner loop of `_find_section_markers`: try the types in table order on the
      stripped line and stop at the first one that matches. */
  method MatchingType(matches: HeadingMatcher, line: string) returns (r: Option<SectionType>)
    ensures r == FirstMatch(matches, line)
  {
    var k := 0;
    while k < |PatternOrder|
      invariant k <= |PatternOrder|
      invariant FirstMatch(matches, line) == FirstMatchFrom(matches, line, k)
    {
      var t := PatternOrder[k];
      if matches(t, line) {
        return Some(t);
      }
      k := k + 1;
    }
    return None;
  }

  /** The marker of a non-blank line whose first matching type is `t`. */
  lemma LineMarkerFound(lines: seq<string>, matches: HeadingMatcher, i: nat, t: SectionType)
    requires i < |lines| && Strip(lines[i]) != [] && FirstMatch(matches, Strip(lines[i])) == Some(t)
    ensures LineMarker(lines, matches, i) ==
      Some(Marker(LineOffset(lines, i), Strip(lines[i]), t, Confidence(Strip(lines[i]), t, i, |lines|)))
  {
  }

  /** `_find_section_markers`' loop: walk the lines of `text`, keeping the offset of the
      current line, and record the first matching type of every non-blank line. */
  method ScanMarkers(text: string, matches: HeadingMatcher) returns (markers: seq<Marker>)
    ensures markers == Scan(Split(text, '\n'), matches, |Split(text, '\n')|)
  {
    var lines := Split(text, '\n');
    var currentPos := 0;
    markers := [];
    var lineIdx := 0;
    while lineIdx < |lines|
      invariant lineIdx <= |lines|
      invariant currentPos == LineOffset(lines, lineIdx)
      invariant markers == Scan(lines, matches, lineIdx)
    {
      markers := ScanLine(lines, matches, lineIdx, currentPos, markers);
      LineOffsetNext(lines, lineIdx);
      currentPos := currentPos + |lines[lineIdx]| + 1;
      lineIdx := lineIdx + 1;
    }
  }

  // ---------------------------------------------------------------- marker filter

  predicate SortedByPos(ms: seq<Marker>) {
    forall a, b | 0 <= a < b < |ms| :: ms[a].pos <= ms[b].pos
  }

  predicate DistinctTypes(ms: seq<Marker>) {
    forall a, b | 0 <= a < b < |ms| :: ms[a].sectionType != ms[b].sectionType
  }

  function TypesOf(ms: seq<Marker>): set<SectionType> {
    set m | m in ms :: m.sectionType
  }

  /** Inserts `x` after every marker whose position is at most its own, so that markers
      with equal positions keep their order (a stable sort). */
  function InsertByPos(s: seq<Marker>, x: Marker): (r: seq<Marker>)
    ensures multiset(r) == multiset(s) + multiset{x}
  {
    if s == [] || x.pos < s[0].pos then [x] + s
    else
      assert s == [s[0]] + s[1..];
      [s[0]] + InsertByPos(s[1..], x)
  }

  lemma {:induction false} InsertByPosSorted(s: seq<Marker>, x: Marker)
    requires SortedByPos(s)
    ensures SortedByPos(InsertByPos(s, x))
  {
    if s != [] && x.pos >= s[0].pos {
      var rest := InsertByPos(s[1..], x);
      InsertByPosSorted(s[1..], x);
      forall i | 0 <= i < |rest|
        ensures s[0].pos <= rest[i].pos
      {
        var k := PermIndex(rest, s[1..] + [x], i);
        if k < |s| - 1 {
          assert (s[1..] + [x])[k] == s[k + 1];
        }
      }
      var r := [s[0]] + rest;
      forall a, b | 0 <= a < b < |r|
        ensures r[a].pos <= r[b].pos
      {
        assert r[b] == rest[b - 1];
        if a > 0 {
          assert r[a] == rest[a - 1];
        }
      }
    }
  }

  lemma {:induction false} InsertByPosDistinct(s: seq<Marker>, x: Marker)
    requires DistinctTypes(s)
    requires forall i | 0 <= i < |s| :: s[i].sectionType != x.sectionType
    ensures DistinctTypes(InsertByPos(s, x))
  {
    if s != [] && x.pos >= s[0].pos {
      var tail := s[1..];
      assert DistinctTypes(tail) by {
        forall a, b | 0 <= a < b < |tail| ensures tail[a].sectionType != tail[b].sectionType {
          assert tail[a] == s[a + 1] && tail[b] == s[b + 1];
        }
      }
      InsertByPosDistinct(tail, x);
      var rest := InsertByPos(tail, x);
      forall i | 0 <= i < |rest|
        ensures s[0].sectionType != rest[i].sectionType
      {
        var k := PermIndex(rest, tail + [x], i);
        if k < |tail| {
          assert (tail + [x])[k] == s[k + 1];
        }
      }
      DistinctPrepend(s[0], rest);
    } else {
      DistinctPrepend(x, s);
    }
  }

  lemma DistinctPrepend(m: Marker, rest: seq<Marker>)
    requires DistinctTypes(rest)
    requires forall i | 0 <= i < |rest| :: m.sectionType != rest[i].sectionType
    ensures DistinctTypes([m] + rest)
  {
    var r := [m] + rest;
    forall a, b | 0 <= a < b < |r| ensures r[a].sectionType != r[b].sectionType {
      assert r[b] == rest[b - 1];
      if a > 0 {
        assert r[a] == rest[a - 1];
      }
    }
  }

  /** An element of a permutation of `b` sits somewhere in `b`. */
  lemma PermIndex<T>(a: seq<T>, b: seq<T>, i: nat) returns (j: nat)
    requires multiset(a) == multiset(b) && i < |a|
    ensures j < |b| && b[j] == a[i]
  {
    assert a[i] in multiset(b);
    j :| 0 <= j < |b| && b[j] == a[i];
  }

  /** `list.sort(key=position)`: a stable sort by position. */
  function SortByPos(s: seq<Marker>): seq<Marker> {
    if s == [] then [] else InsertByPos(SortByPos(s[..|s| - 1]), s[|s| - 1])
  }

  /** Sorting yields a permutation ordered by position, and keeps types distinct. */
  lemma {:induction false} SortByPosSpec(s: seq<Marker>)
    ensures SortedByPos(SortByPos(s))
    ensures multiset(SortByPos(s)) == multiset(s)
    ensures DistinctTypes(s) ==> DistinctTypes(SortByPos(s))
  {
    if s != [] {
      var init := s[..|s| - 1];
      var x := s[|s| - 1];
      var sorted := SortByPos(init);
      assert s == init + [x];
      SortByPosSpec(init);
      InsertByPosSorted(sorted, x);
      if DistinctTypes(s) {
        forall i | 0 <= i < |sorted|
          ensures sorted[i].sectionType != x.sectionType
        {
          var k := PermIndex(sorted, init, i);
          assert s[k] == sorted[i];
        }
        InsertByPosDistinct(sorted, x);
      }
    }
  }

  /** Sorting a list that is already in position order changes nothing. */
  lemma {:induction false} SortByPosSorted(s: seq<Marker>)
    requires SortedByPos(s)
    ensures SortByPos(s) == s
  {
    if s != [] {
      var init := s[..|s| - 1];
      SortByPosSorted(init);
      InsertByPosLast(init, s[|s| - 1]);
    }
  }

  lemma {:induction false} InsertByPosLast(s: seq<Marker>, x: Marker)
    requires forall i | 0 <= i < |s| :: s[i].pos <= x.pos
    ensures InsertByPos(s, x) == s + [x]
  {
    if s != [] {
      InsertByPosLast(s[1..], x);
    }
  }

  /** A permutation has the same types. */
  lemma PermTypes(a: seq<Marker>, b: seq<Marker>)
    requires multiset(a) == multiset(b)
    ensures TypesOf(a) == TypesOf(b)
  {
    forall m ensures m in a <==> m in b {
      assert m in a <==> m in multiset(a);
    }
  }

  /** Index in `seen` of the entry of type `t`, or `|seen|` when there is none. */
  function SlotOf(seen: seq<Marker>, t: SectionType): (j: nat)
    ensures j <= |seen|
    ensures j < |seen| ==> seen[j].sectionType == t
    ensures j == |seen| ==> forall k | 0 <= k < |seen| :: seen[k].sectionType != t
  {
    if seen == [] then 0
    else if seen[0].sectionType == t then 0
    else 1 + SlotOf(seen[1..], t)
  }

  /** One step of the `seen_types` loop: a marker of a new type is added at the end
      (dictionary insertion order); a strictly more confident marker replaces the entry
      of its type in place; otherwise nothing changes. */
  function KeepStep(seen: seq<Marker>, m: Marker): seq<Marker> {
    var j := SlotOf(seen, m.sectionType);
    if j == |seen| then seen + [m]
    else if m.confidence > seen[j].confidence then seen[j := m]
    else seen
  }

  /** The values of `seen_types` after the loop has visited all of `ms`. */
  function Keep(ms: seq<Marker>): seq<Marker> {
    if ms == [] then [] else KeepStep(Keep(ms[..|ms| - 1]), ms[|ms| - 1])
  }

  /** `ms[a]` has the highest confidence of its type, and no earlier marker of its type
      reaches that confidence: the earliest of the most confident wins. */
  predicate BestOf(ms: seq<Marker>, a: nat)
    requires a < |ms|
  {
    && (forall j | 0 <= j < |ms| && ms[j].sectionType == ms[a].sectionType :: ms[j].confidence <= ms[a].confidence)
    && (forall j | 0 <= j < a && ms[j].sectionType == ms[a].sectionType :: ms[j].confidence < ms[a].confidence)
  }

  /** Each type has at most one best marker. */
  lemma BestOfUnique(ms: seq<Marker>, a: nat, b: nat)
    requires a < |ms| && b < |ms| && BestOf(ms, a) && BestOf(ms, b)
    requires ms[a].sectionType == ms[b].sectionType
    ensures a == b
  {
  }

  lemma TypesOfAppend(ms: seq<Marker>, m: Marker)
    ensures TypesOf(ms + [m]) == TypesOf(ms) + {m.sectionType}
  {
    assert forall x | x in ms + [m] :: x in ms || x == m;
  }

  /** One step of the loop keeps the types distinct and adds the marker's type. */
  lemma KeepStepTypes(seen: seq<Marker>, m: Marker)
    requires DistinctTypes(seen)
    ensures DistinctTypes(KeepStep(seen, m))
    ensures TypesOf(KeepStep(seen, m)) == TypesOf(seen) + {m.sectionType}
  {
    var j := SlotOf(seen, m.sectionType);
    if j == |seen| {
      TypesOfAppend(seen, m);
    } else {
      assert m.sectionType in TypesOf(seen) by {
        assert seen[j] in seen;
      }
      if m.confidence > seen[j].confidence {
        var seen' := seen[j := m];
        forall t | t in TypesOf(seen) ensures t in TypesOf(seen') {
          var k :| 0 <= k < |seen| && seen[k].sectionType == t;
          assert seen'[k] in seen';
        }
        forall t | t in TypesOf(seen') ensures t in TypesOf(seen) {
          var k :| 0 <= k < |seen'| && seen'[k].sectionType == t;
          assert seen[k] in seen;
        }
      }
    }
  }

  /** The kept markers have distinct types, and exactly the types of the input. */
  lemma {:induction false} KeepTypes(ms: seq<Marker>)
    ensures DistinctTypes(Keep(ms))
    ensures TypesOf(Keep(ms)) == TypesOf(ms)
  {
    if ms != [] {
      var init := ms[..|ms| - 1];
      var m := ms[|ms| - 1];
      KeepTypes(init);
      KeepStepTypes(Keep(init), m);
      assert TypesOf(ms) == TypesOf(init) + {m.sectionType} by {
        assert ms == init + [m];
        TypesOfAppend(init, m);
      }
    }
  }

  /** Extending the list by one marker keeps `ms[a]` best when the new marker does not beat it. */
  lemma BestOfExtend(ms: seq<Marker>, a: nat)
    requires a < |ms| - 1 && BestOf(ms[..|ms| - 1], a)
    requires ms[|ms| - 1].sectionType == ms[a].sectionType ==> ms[|ms| - 1].confidence <= ms[a].confidence
    ensures BestOf(ms, a)
  {
    var init := ms[..|ms| - 1];
    forall j | 0 <= j < |ms| - 1
      ensures ms[j] == init[j]
    {
    }
  }

  /** `idx` locates every entry of `kept` in `ms`, each entry being the best of its type. */
  predicate Winners(ms: seq<Marker>, kept: seq<Marker>, idx: seq<nat>) {
    && |idx| == |kept|
    && forall k | 0 <= k < |idx| :: idx[k] < |ms| && ms[idx[k]] == kept[k] && BestOf(ms, idx[k])
  }

  /** A new type: its only marker so far is its best. */
  lemma WinnersAppend(ms: seq<Marker>, seen: seq<Marker>, idx: seq<nat>)
    requires ms != [] && Winners(ms[..|ms| - 1], seen, idx)
    requires forall i | 0 <= i < |ms| - 1 :: ms[i].sectionType != ms[|ms| - 1].sectionType
    ensures Winners(ms, seen + [ms[|ms| - 1]], idx + [|ms| - 1])
  {
    forall k | 0 <= k < |idx|
      ensures BestOf(ms, idx[k])
    {
      BestOfExtend(ms, idx[k]);
    }
  }

  /** A strictly more confident marker of a seen type becomes its best. */
  lemma WinnersReplace(ms: seq<Marker>, seen: seq<Marker>, idx: seq<nat>, j: nat)
    requires ms != [] && Winners(ms[..|ms| - 1], seen, idx) && DistinctTypes(seen)
    requires j < |seen| && seen[j].sectionType == ms[|ms| - 1].sectionType
    requires ms[|ms| - 1].confidence > seen[j].confidence
    ensures Winners(ms, seen[j := ms[|ms| - 1]], idx[j := |ms| - 1])
  {
    var n := |ms| - 1;
    forall k | 0 <= k < |idx| && k != j
      ensures BestOf(ms, idx[k])
    {
      BestOfExtend(ms, idx[k]);
    }
    forall i | 0 <= i < n && ms[i].sectionType == ms[n].sectionType
      ensures ms[i].confidence < ms[n].confidence
    {
      assert ms[i] == ms[..n][i];
    }
  }

  /** A marker that does not beat the best of its type changes nothing. */
  lemma WinnersKeep(ms: seq<Marker>, seen: seq<Marker>, idx: seq<nat>, j: nat)
    requires ms != [] && Winners(ms[..|ms| - 1], seen, idx)
    requires j < |seen| && seen[j].sectionType == ms[|ms| - 1].sectionType
    requires ms[|ms| - 1].confidence <= seen[j].confidence
    requires forall k | 0 <= k < |seen| && k != j :: seen[k].sectionType != seen[j].sectionType
    ensures Winners(ms, seen, idx)
  {
    forall k | 0 <= k < |idx|
      ensures BestOf(ms, idx[k])
    {
      BestOfExtend(ms, idx[k]);
    }
  }

  /** Every kept marker is the best marker of its type in `ms`; `idx` locates them. */
  lemma {:induction false} KeepWinners(ms: seq<Marker>) returns (idx: seq<nat>)
    ensures Winners(ms, Keep(ms), idx)
  {
    if ms == [] {
      return [];
    }
    var n := |ms| - 1;
    var init := ms[..n];
    var m := ms[n];
    var idx0 := KeepWinners(init);
    var seen := Keep(init);
    assert Keep(ms) == KeepStep(seen, m);
    var j := SlotOf(seen, m.sectionType);
    if j == |seen| {
      idx := idx0 + [n];
      assert Winners(ms, seen + [m], idx) by {
        KeepTypes(init);
        forall i | 0 <= i < n
          ensures ms[i].sectionType != m.sectionType
        {
          assert ms[i] == init[i];
          assert ms[i].sectionType in TypesOf(init);
        }
        WinnersAppend(ms, seen, idx0);
      }
    } else if m.confidence > seen[j].confidence {
      idx := idx0[j := n];
      assert Winners(ms, seen[j := m], idx) by {
        KeepTypes(init);
        WinnersReplace(ms, seen, idx0, j);
      }
    } else {
      idx := idx0;
      assert Winners(ms, seen, idx) by {
        KeepTypes(init);
        WinnersKeep(ms, seen, idx0, j);
      }
    }
  }

  lemma KeepNext(ms: seq<Marker>, i: nat)
    requires i < |ms|
    ensures Keep(ms[..i + 1]) == KeepStep(Keep(ms[..i]), ms[i])
  {
    assert ms[..i + 1][..i] == ms[..i];
  }

  /** Markers the `>= 0.4` cut keeps. */
  predicate Confident(m: Marker) { m.confidence >= MinConfidence }

  /** `_filter_markers`: drop markers under 0.4, keep the best marker of every type in a
      dictionary, and sort its values by position. */
  method FilterMarkers(markers: seq<Marker>) returns (r: seq<Marker>)
    ensures r == SortByPos(Keep(Seqs.Filter(markers, Confident)))
  {
    if markers == [] {
      return [];
    }
    var filtered := Seqs.Filter(markers, Confident);
    var seenTypes: seq<Marker> := [];
    for i := 0 to |filtered|
      invariant seenTypes == Keep(filtered[..i])
    {
      var marker := filtered[i];
      var j := SlotOf(seenTypes, marker.sectionType);
      if j == |seenTypes| {
        seenTypes := seenTypes + [marker];
      } else if marker.confidence > seenTypes[j].confidence {
        seenTypes := seenTypes[j := marker];
      }
      KeepNext(filtered, i);
    }
    assert filtered[..|filtered|] == filtered;
    r := SortByPos(seenTypes);
  }

  /** Every sorted kept marker is the best of its type. */
  lemma SortedWinners(ms: seq<Marker>, r: seq<Marker>)
    requires r == SortByPos(Keep(ms))
    ensures forall k | 0 <= k < |r| :: exists a | 0 <= a < |ms| :: ms[a] == r[k] && BestOf(ms, a)
  {
    var kept := Keep(ms);
    SortByPosSpec(kept);
    var idx := KeepWinners(ms);
    forall k | 0 <= k < |r|
      ensures exists a | 0 <= a < |ms| :: ms[a] == r[k] && BestOf(ms, a)
    {
      var i := PermIndex(r, kept, k);
      assert ms[idx[i]] == r[k] && BestOf(ms, idx[i]);
    }
  }

  /** The kept markers, sorted: position order, one marker per type, exactly the types
      of `ms`, each the earliest most confident marker of its type in `ms`. */
  lemma KeptSpec(ms: seq<Marker>, r: seq<Marker>)
    requires r == SortByPos(Keep(ms))
    ensures SortedByPos(r) && DistinctTypes(r)
    ensures TypesOf(r) == TypesOf(ms)
    ensures forall k | 0 <= k < |r| :: exists a | 0 <= a < |ms| :: ms[a] == r[k] && BestOf(ms, a)
  {
    var kept := Keep(ms);
    assert SortedByPos(r) && DistinctTypes(r) by {
      KeepTypes(ms);
      SortByPosSpec(kept);
    }
    assert TypesOf(r) == TypesOf(ms) by {
      KeepTypes(ms);
      SortByPosSpec(kept);
      PermTypes(r, kept);
    }
    SortedWinners(ms, r);
  }

  /** What `_filter_markers` returns: the kept markers of the confident ones, sorted; all
      of them confident markers of the input, and none for an empty input. */
  lemma FilterMarkersSpec(markers: seq<Marker>)
    ensures var r := SortByPos(Keep(Seqs.Filter(markers, Confident)));
      forall k | 0 <= k < |r| :: r[k].confidence >= MinConfidence && r[k] in markers
    ensures markers == [] ==> SortByPos(Keep(Seqs.Filter(markers, Confident))) == []
  {
    var filtered := Seqs.Filter(markers, Confident);
    var r := SortByPos(Keep(filtered));
    KeptSpec(filtered, r);
    forall k | 0 <= k < |r|
      ensures r[k].confidence >= MinConfidence && r[k] in markers
    {
      var a :| 0 <= a < |filtered| && filtered[a] == r[k] && BestOf(filtered, a);
    }
  }

  // ---------------------------------------------------------------- markers of a text

  /** The markers `_find_section_markers` returns: the best marker of every type among the
      scanned lines, in position order. */
  function SectionMarkers(text: string, matches: HeadingMatcher): seq<Marker> {
    var lines := Split(text, '\n');
    SortByPos(Keep(Scan(lines, matches, |lines|)))
  }

  /** Scanned markers have confidence at least 0.5, so the 0.4 cut removes none of them. */
  lemma ScanConfident(lines: seq<string>, matches: HeadingMatcher)
    ensures Seqs.Filter(Scan(lines, matches, |lines|), Confident) == Scan(lines, matches, |lines|)
  {
    var ms := Scan(lines, matches, |lines|);
    forall k | 0 <= k < |ms|
      ensures Confident(ms[k])
    {
      var i := ScanFromLines(lines, matches, k);
    }
    Seqs.FilterAll(ms, Confident);
  }

  /** The sort before filtering and the 0.4 cut change nothing on scanned markers. */
  lemma SectionMarkersOfScan(text: string, matches: HeadingMatcher)
    ensures var lines := Split(text, '\n');
      SortByPos(Keep(Seqs.Filter(SortByPos(Scan(lines, matches, |lines|)), Confident))) == SectionMarkers(text, matches)
  {
    var lines := Split(text, '\n');
    var ms := Scan(lines, matches, |lines|);
    assert SortedByPos(ms) by {
      ScanIncreasing(lines, matches);
    }
    SortByPosSorted(ms);
    ScanConfident(lines, matches);
  }

  /** `_find_section_markers`. */
  method FindSectionMarkers(text: string, matches: HeadingMatcher) returns (r: seq<Marker>)
    ensures r == SectionMarkers(text, matches)
  {
    var markers := ScanMarkers(text, matches);
    markers := SortByPos(markers);
    r := FilterMarkers(markers);
    SectionMarkersOfScan(text, matches);
  }

  /** The markers of a text are in position order inside the text, one per type, and
      none of them of the unknown type. */
  lemma SectionMarkersSpec(text: string, matches: HeadingMatcher)
    ensures SortedByPos(SectionMarkers(text, matches)) && DistinctTypes(SectionMarkers(text, matches))
    ensures forall k | 0 <= k < |SectionMarkers(text, matches)| ::
      SectionMarkers(text, matches)[k].pos <= |text| && SectionMarkers(text, matches)[k].sectionType != Unknown
  {
    var lines := Split(text, '\n');
    var ms := Scan(lines, matches, |lines|);
    var r := SortByPos(Keep(ms));
    KeptSpec(ms, r);
    forall k | 0 <= k < |r|
      ensures r[k].pos <= |text| && r[k].sectionType != Unknown
    {
      var a :| 0 <= a < |ms| && ms[a] == r[k] && BestOf(ms, a);
      ScanInText(text, lines, matches, a);
      var i := ScanFromLines(lines, matches, a);
    }
  }

  /** Each marker of a text is the earliest most confident heading of its type among the
      lines, and every type with a heading has a marker. */
  lemma SectionMarkersBest(text: string, lines: seq<string>, matches: HeadingMatcher)
    requires lines == Split(text, '\n')
    ensures TypesOf(SectionMarkers(text, matches)) == TypesOf(Scan(lines, matches, |lines|))
    ensures forall k | 0 <= k < |SectionMarkers(text, matches)| :: exists a | 0 <= a < |Scan(lines, matches, |lines|)| ::
      Scan(lines, matches, |lines|)[a] == SectionMarkers(text, matches)[k] && BestOf(Scan(lines, matches, |lines|), a)
  {
    KeptSpec(Scan(lines, matches, |lines|), SectionMarkers(text, matches));
  }

  /** A text has markers exactly when one of its lines is a heading. */
  lemma SectionMarkersEmpty(text: string, matches: HeadingMatcher)
    ensures SectionMarkers(text, matches) == [] <==> NoHeadings(text, matches)
  {
    var lines := Split(text, '\n');
    var ms := Scan(lines, matches, |lines|);
    KeptEmpty(ms, SectionMarkers(text, matches));
    ScanEmpty(text, lines, matches);
  }

  /** Keeping the best marker per type and sorting leaves some marker exactly when there was one. */
  lemma KeptEmpty(ms: seq<Marker>, r: seq<Marker>)
    requires r == SortByPos(Keep(ms))
    ensures r == [] <==> ms == []
  {
    KeptSpec(ms, r);
    if ms != [] {
      assert ms[0].sectionType in TypesOf(ms);
    }
    if r != [] {
      assert r[0].sectionType in TypesOf(r);
    }
  }

  // ---------------------------------------------------------------- sections

  /** A section ends where the next marker starts, the last one at the end of the text. */
  function SectionEnd(text: string, ms: seq<Marker>, i: nat): nat
    requires i < |ms|
  {
    if i + 1 < |ms| then ms[i + 1].pos else |text|
  }

  /** The stripped span, without its first line when that line contains the header
      (ignoring case). */
  function SectionBody(text: string, header: string, start: nat, end: nat): string {
    var content := Strip(Slice(text, start, end));
    var lines := Split(content, '\n');
    if Contains(Lower(lines[0]), Lower(header)) then Strip(Join(lines[1..], "\n")) else content
  }

  /** The section marker `i` opens, before the length check. */
  function CandidateSection(text: string, ms: seq<Marker>, i: nat): AcademicSection
    requires i < |ms|
  {
    var m := ms[i];
    var end := SectionEnd(text, ms, i);
    AcademicSection(Title(Value(m.sectionType)), m.sectionType, SectionBody(text, m.header, m.pos, end), m.pos, end, m.confidence)
  }

  predicate LongEnough(s: AcademicSection) { |s.content| >= MinSectionLength }

  /** `_create_sections_from_markers`: one section per marker, kept when its body has at
      least 50 characters. */
  function CreateSections(text: string, ms: seq<Marker>): seq<AcademicSection> {
    Seqs.Filter(CandidateSections(text, ms), LongEnough)
  }

  /** The section of every marker, before the length check. */
  function CandidateSections(text: string, ms: seq<Marker>): (cs: seq<AcademicSection>)
    ensures |cs| == |ms|
    ensures forall i | 0 <= i < |ms| :: cs[i] == CandidateSection(text, ms, i)
  {
    seq(|ms|, i requires 0 <= i < |ms| => CandidateSection(text, ms, i))
  }

  /** The fields a candidate section takes from its marker. */
  lemma CandidateFields(text: string, ms: seq<Marker>, k: nat, c: AcademicSection)
    requires k < |ms| && c == CandidateSection(text, ms, k)
    ensures c.name == Title(Value(ms[k].sectionType)) && c.sectionType == ms[k].sectionType
    ensures c.startPosition == ms[k].pos && c.endPosition == SectionEnd(text, ms, k)
    ensures c.confidence == ms[k].confidence
  {
  }

  /** `x` ends no later than `y` starts, and the two have different types. */
  predicate Precedes(x: AcademicSection, y: AcademicSection) {
    x.endPosition <= y.startPosition && x.sectionType != y.sectionType
  }

  /** A section span inside a text of `len` characters, of a type a heading can have. */
  predicate Placed(s: AcademicSection, len: nat) {
    s.startPosition <= s.endPosition <= len && s.sectionType != Unknown
  }

  /** Sections of markers in position order are disjoint, in order, and of distinct types
      when the markers are. */
  lemma CreateSectionsOrdered(text: string, ms: seq<Marker>, r: seq<AcademicSection>)
    requires SortedByPos(ms) && DistinctTypes(ms)
    requires r == CreateSections(text, ms)
    ensures forall a, b | 0 <= a < b < |r| :: Precedes(r[a], r[b])
  {
    var cands := CandidateSections(text, ms);
    forall a, b | 0 <= a < b < |cands|
      ensures Precedes(cands[a], cands[b])
    {
      CandidateFields(text, ms, a, cands[a]);
      CandidateFields(text, ms, b, cands[b]);
      assert ms[a + 1].pos <= ms[b].pos;
    }
    Seqs.FilterPairwise(cands, LongEnough, Precedes);
  }

  /** Each section lies inside the text, has at least 50 characters of content, and is
      named after its type.  It is the section of one of the markers: it starts at that
      marker, ends where the next marker starts (the last one at the end of the text), and
      its content is the stripped span without the header line. */
  lemma CreateSectionsPlaced(text: string, ms: seq<Marker>, r: seq<AcademicSection>, i: nat)
    requires SortedByPos(ms)
    requires forall k | 0 <= k < |ms| :: ms[k].pos <= |text| && ms[k].sectionType != Unknown
    requires r == CreateSections(text, ms) && i < |r|
    ensures Placed(r[i], |text|) && |r[i].content| >= MinSectionLength
    ensures r[i].name == Title(Value(r[i].sectionType))
    ensures exists k | 0 <= k < |ms| ::
      && ms[k].pos == r[i].startPosition && ms[k].sectionType == r[i].sectionType && ms[k].confidence == r[i].confidence
      && r[i].endPosition == SectionEnd(text, ms, k)
      && r[i].content == SectionBody(text, ms[k].header, ms[k].pos, SectionEnd(text, ms, k))
  {
    var cands := CandidateSections(text, ms);
    assert r[i] in cands && LongEnough(r[i]);
    var k :| 0 <= k < |cands| && cands[k] == r[i];
    CandidateFields(text, ms, k, r[i]);
    if k + 1 < |ms| {
      assert ms[k].pos <= ms[k + 1].pos;
    }
  }

  predicate NotReferences(s: AcademicSection) { s.sectionType != References }

  /** `_filter_references_section`: the sections that are not references, in order. */
  function DropReferences(sections: seq<AcademicSection>): (r: seq<AcademicSection>)
    ensures forall i | 0 <= i < |r| :: r[i].sectionType != References && r[i] in sections
    ensures forall i | 0 <= i < |sections| :: sections[i].sectionType != References ==> sections[i] in r
  {
    Seqs.Filter(sections, NotReferences)
  }

  /** The sections kept keep their relative order: they come from the strictly increasing
      positions `idx` of the input, and those are exactly the positions of the sections
      that are not references. */
  lemma DropReferencesOrder(sections: seq<AcademicSection>) returns (idx: seq<nat>)
    ensures |idx| == |DropReferences(sections)|
    ensures forall a, b | 0 <= a < b < |idx| :: idx[a] < idx[b]
    ensures forall k | 0 <= k < |idx| :: idx[k] < |sections| && DropReferences(sections)[k] == sections[idx[k]]
    ensures forall i | 0 <= i < |sections| :: sections[i].sectionType != References <==> i in idx
  {
    idx := Seqs.FilterIndices(sections, NotReferences, |sections|);
    Seqs.FilterIndicesSpec(sections, NotReferences, |sections|);
    assert sections[..|sections|] == sections;
  }

  // ---------------------------------------------------------------- validation

  /** `_clean_section_content`: collapse three or more line breaks inside a whitespace run
      to two, every run of spaces and tabs to one space, then strip. */
  function CleanSectionContent(content: string): string {
    if content == [] then []
    else Strip(CollapseBlanks(MapSpaceRuns(content, CollapseBreaks)))
  }

  /** The two substitutions leave no two adjacent spaces or tabs and no whitespace run
      with more than two line breaks, and keep the non-whitespace characters. */
  lemma CollapsedSpec(content: string)
    ensures RunsOk(CollapseBlanks(MapSpaceRuns(content, CollapseBreaks)), AtMostTwoBreaks)
    ensures NonSpace(CollapseBlanks(MapSpaceRuns(content, CollapseBreaks))) == NonSpace(content)
    ensures NoDoubleBlank(CollapseBlanks(MapSpaceRuns(content, CollapseBreaks)))
  {
    var a := MapSpaceRuns(content, CollapseBreaks);
    assert RunsOk(a, AtMostTwoBreaks) && NonSpace(a) == NonSpace(content) by {
      CollapseBreaksKeepsRuns();
      MapRunsEstablish(content, CollapseBreaks, AtMostTwoBreaks);
      MapRunsNonSpace(content, CollapseBreaks);
    }
    CollapseBlanksByRuns(a);
    CollapseBlanksKeepsRuns();
    MapRunsPreserve(a, CollapseBlanks, AtMostTwoBreaks);
    MapRunsNonSpace(a, CollapseBlanks);
    CollapseBlanksNoDouble(a);
  }

  /** A slice of a string without adjacent blanks has none either. */
  lemma NoDoubleBlankSlice(s: string, lo: nat, hi: nat)
    requires lo <= hi <= |s| && NoDoubleBlank(s)
    ensures NoDoubleBlank(s[lo..hi])
  {
    var r := s[lo..hi];
    forall i | 0 <= i < |r| - 1
      ensures !(IsBlank(r[i]) && IsBlank(r[i + 1]))
    {
      assert r[i] == s[lo + i] && r[i + 1] == s[lo + i + 1];
    }
  }

  /** Cleaned content is trimmed, has no two adjacent spaces or tabs, no whitespace run
      with more than two line breaks, and keeps every non-whitespace character in order. */
  lemma CleanSectionContentSpec(content: string)
    ensures content == [] ==> CleanSectionContent(content) == []
    ensures Trimmed(CleanSectionContent(content))
    ensures NoDoubleBlank(CleanSectionContent(content))
    ensures RunsOk(CleanSectionContent(content), AtMostTwoBreaks)
    ensures NonSpace(CleanSectionContent(content)) == NonSpace(content)
  {
    if content != [] {
      var b := CollapseBlanks(MapSpaceRuns(content, CollapseBreaks));
      CollapsedSpec(content);
      assert Trimmed(Strip(b)) && NoDoubleBlank(Strip(b)) by {
        StripSpec(b);
        NoDoubleBlankSlice(b, LeadLen(b), LeadLen(b) + |Strip(b)|);
      }
      StripRunsOk(b, AtMostTwoBreaks);
      StripNonSpace(b);
    }
  }

  /** Content over 50,000 characters keeps its first 50,000 followed by "...". */
  function Truncate(content: string): (r: string)
    ensures |r| <= MaxSectionLength + 3
    ensures |content| <= MaxSectionLength ==> r == content
    ensures |content| > MaxSectionLength ==> |r| == MaxSectionLength + 3 && r[..MaxSectionLength] == content[..MaxSectionLength]
  {
    if |content| > MaxSectionLength then content[..MaxSectionLength] + "..." else content
  }

  predicate HasMinContent(s: AcademicSection) { |Strip(s.content)| >= MinSectionLength }

  /** A section after truncation and cleaning. */
  function Validated(s: AcademicSection): AcademicSection {
    s.(content := CleanSectionContent(Truncate(s.content)))
  }

  /** A section with enough content keeps non-empty, cleaned content holding the
      non-whitespace characters of its (truncated) content. */
  lemma ValidatedSpec(s: AcademicSection)
    requires HasMinContent(s)
    ensures var c := Validated(s).content;
      c != [] && Trimmed(c) && NoDoubleBlank(c) && RunsOk(c, AtMostTwoBreaks)
      && NonSpace(c) == NonSpace(Truncate(s.content))
  {
    var t := Truncate(s.content);
    var c := Validated(s).content;
    assert c == CleanSectionContent(t);
    assert Trimmed(c) && NoDoubleBlank(c) && RunsOk(c, AtMostTwoBreaks) && NonSpace(c) == NonSpace(t) by {
      CleanSectionContentSpec(t);
    }
    assert NonSpace(t) != [] by {
      TruncateNonSpace(s.content);
    }
  }

  /** Content with 50 non-blank stripped characters keeps a non-whitespace character
      through truncation. */
  lemma TruncateNonSpace(content: string)
    requires |Strip(content)| >= MinSectionLength
    ensures NonSpace(Truncate(content)) != []
  {
    var t := Truncate(content);
    if |content| > MaxSectionLength {
      assert t[|t| - 1] == '.' && NotSpace(t[|t| - 1]);
      assert t[|t| - 1] in NonSpace(t);
    } else {
      var r := Strip(content);
      StripSpec(content);
      assert r[0] in NonSpace(r);
      StripNonSpace(content);
    }
  }

  /** The sections `_validate_sections` returns: those with at least 50 characters of
      stripped content, truncated and cleaned, in order. */
  function ValidSections(sections: seq<AcademicSection>): seq<AcademicSection> {
    Seqs.FilterMap(sections, HasMinContent, Validated)
  }

  /** `_validate_sections`: keep the sections with at least 50 characters of stripped
      content, truncate and clean each one. */
  method ValidateSections(sections: seq<AcademicSection>) returns (valid: seq<AcademicSection>)
    ensures valid == ValidSections(sections)
  {
    valid := [];
    for i := 0 to |sections|
      invariant valid == ValidSections(sections[..i])
    {
      var section := sections[i];
      assert sections[..i + 1][..i] == sections[..i];
      if |Strip(section.content)| >= MinSectionLength {
        var content := section.content;
        if |content| > MaxSectionLength {
          content := content[..MaxSectionLength] + "...";
        }
        content := CleanSectionContent(content);
        valid := valid + [section.(content := content)];
      }
    }
    assert sections[..|sections|] == sections;
  }

  // ---------------------------------------------------------------- detection

  /** `_create_unknown_section`: the whole span as one section of unknown type. */
  function UnknownSection(text: string, start: nat, end: nat): AcademicSection {
    var content := if text == [] then [] else Strip(Slice(text, start, end));
    AcademicSection("Full Text", Unknown, content, start, end, FullConfidence)
  }

  /** The text is treated as one continuous section: too little text, or no heading. */
  predicate Fallback(text: string, matches: HeadingMatcher) {
    |Strip(text)| < MinSectionLength || NoHeadings(text, matches)
  }

  /** The sections `detect_sections` returns. */
  function Detect(text: string, matches: HeadingMatcher): seq<AcademicSection> {
    if text == [] || |Strip(text)| < MinSectionLength then [UnknownSection(text, 0, |text|)]
    else
      var markers := SectionMarkers(text, matches);
      if markers == [] then [UnknownSection(text, 0, |text|)]
      else ValidSections(DropReferences(CreateSections(text, markers)))
  }

  /** `detect_sections`. */
  method DetectSections(text: string, matches: HeadingMatcher) returns (sections: seq<AcademicSection>)
    ensures sections == Detect(text, matches)
  {
    if text == [] || |Strip(text)| < MinSectionLength {
      return [UnknownSection(text, 0, |text|)];
    }
    var markers := FindSectionMarkers(text, matches);
    if markers == [] {
      return [UnknownSection(text, 0, |text|)];
    }
    sections := CreateSections(text, markers);
    sections := DropReferences(sections);
    sections := ValidateSections(sections);
  }

  /** Each section found under headings is a validated, non-references section created
      from the markers of the text. */
  lemma DetectOrigin(text: string, matches: HeadingMatcher, r: seq<AcademicSection>, i: nat) returns (x: AcademicSection)
    requires !Fallback(text, matches) && r == Detect(text, matches) && i < |r|
    ensures SectionMarkers(text, matches) != []
    ensures x in CreateSections(text, SectionMarkers(text, matches))
    ensures r[i] == Validated(x) && HasMinContent(x) && x.sectionType != References
  {
    var ms := SectionMarkers(text, matches);
    assert ms != [] by {
      SectionMarkersEmpty(text, matches);
    }
    var c := CreateSections(text, ms);
    var d := DropReferences(c);
    var f := Seqs.Filter(d, HasMinContent);
    assert r == Seqs.Map(f, Validated) by {
      Seqs.FilterMapSpec(d, HasMinContent, Validated);
    }
    x := f[i];
  }

  /** Every section found under headings lies inside the text, is neither references nor
      unknown, is named after its type, and has non-empty cleaned content. */
  lemma DetectSection(text: string, matches: HeadingMatcher, r: seq<AcademicSection>, i: nat)
    requires !Fallback(text, matches) && r == Detect(text, matches) && i < |r|
    ensures Placed(r[i], |text|) && r[i].sectionType != References
    ensures r[i].name == Title(Value(r[i].sectionType))
    ensures r[i].content != [] && Trimmed(r[i].content) && NoDoubleBlank(r[i].content)
    ensures RunsOk(r[i].content, AtMostTwoBreaks)
  {
    var x := DetectOrigin(text, matches, r, i);
    var ms := SectionMarkers(text, matches);
    var c := CreateSections(text, ms);
    var j :| 0 <= j < |c| && c[j] == x;
    assert Placed(x, |text|) && x.name == Title(Value(x.sectionType)) by {
      SectionMarkersSpec(text, matches);
      CreateSectionsPlaced(text, ms, c, j);
    }
    ValidatedSpec(x);
  }

  /** Sections found under headings are in text order, disjoint and of distinct types. */
  lemma DetectOrdered(text: string, matches: HeadingMatcher, r: seq<AcademicSection>)
    requires !Fallback(text, matches) && r == Detect(text, matches)
    ensures forall a, b | 0 <= a < b < |r| :: Precedes(r[a], r[b])
  {
    var ms := SectionMarkers(text, matches);
    SectionMarkersEmpty(text, matches);
    SectionMarkersSpec(text, matches);
    var c := CreateSections(text, ms);
    var d := DropReferences(c);
    var f := Seqs.Filter(d, HasMinContent);
    assert r == Seqs.Map(f, Validated) by {
      Seqs.FilterMapSpec(d, HasMinContent, Validated);
    }
    CreateSectionsOrdered(text, ms, c);
    Seqs.FilterPairwise(c, NotReferences, Precedes);
    Seqs.FilterPairwise(d, HasMinContent, Precedes);
  }

  /** The whole-text fallback applies exactly when the text is short or has no heading:
      then the result is the single unknown section spanning the text, otherwise no
      section is unknown. */
  lemma DetectFallback(text: string, matches: HeadingMatcher)
    ensures Fallback(text, matches) ==>
      Detect(text, matches) == [AcademicSection("Full Text", Unknown, Strip(text), 0, |text|, FullConfidence)]
    ensures !Fallback(text, matches) ==>
      forall i | 0 <= i < |Detect(text, matches)| :: Detect(text, matches)[i].sectionType != Unknown
  {
    SectionMarkersEmpty(text, matches);
    if !Fallback(text, matches) {
      forall i | 0 <= i < |Detect(text, matches)|
        ensures Detect(text, matches)[i].sectionType != Unknown
      {
        DetectSection(text, matches, Detect(text, matches), i);
      }
    } else if text != [] {
      assert Slice(text, 0, |text|) == text;
    }
  }

  // ---------------------------------------------------------------- summary

  /** The dictionary `get_section_summary` returns; `sectionTypes` lists the keys of
      `sectionCounts` in insertion order. */
  datatype SectionSummary = SectionSummary(
    totalSections: nat,
    sectionTypes: seq<string>,
    sectionCounts: map<string, nat>,
    totalContentLength: nat,
    averageSectionLength: nat)

  /** The type values of `sections` in order of first occurrence. */
  function TypeKeys(sections: seq<AcademicSection>): seq<string> {
    if sections == [] then []
    else
      var keys := TypeKeys(sections[..|sections| - 1]);
      var v := Value(sections[|sections| - 1].sectionType);
      if v in keys then keys else keys + [v]
  }

  /** How many sections have each type value. */
  function TypeCounts(sections: seq<AcademicSection>): map<string, nat> {
    if sections == [] then map[]
    else
      var counts := TypeCounts(sections[..|sections| - 1]);
      var v := Value(sections[|sections| - 1].sectionType);
      counts[v := (if v in counts then counts[v] else 0) + 1]
  }

  function TotalLength(sections: seq<AcademicSection>): nat {
    if sections == [] then 0
    else TotalLength(sections[..|sections| - 1]) + |sections[|sections| - 1].content|
  }

  /** The keys are distinct, are exactly the counted values, are exactly the type values
      that occur, and every count is positive. */
  lemma TypeKeysSpec(sections: seq<AcademicSection>)
    ensures forall a, b | 0 <= a < b < |TypeKeys(sections)| :: TypeKeys(sections)[a] != TypeKeys(sections)[b]
    ensures forall v :: v in TypeCounts(sections) <==> v in TypeKeys(sections)
    ensures forall v :: v in TypeKeys(sections) <==> exists i | 0 <= i < |sections| :: Value(sections[i].sectionType) == v
    ensures forall v | v in TypeCounts(sections) :: TypeCounts(sections)[v] >= 1
  {
    TypeKeysDistinct(sections);
    TypeCountsKeys(sections);
    TypeKeysOccur(sections);
  }

  lemma {:induction false} TypeKeysDistinct(sections: seq<AcademicSection>)
    ensures forall a, b | 0 <= a < b < |TypeKeys(sections)| :: TypeKeys(sections)[a] != TypeKeys(sections)[b]
  {
    if sections != [] {
      var init := sections[..|sections| - 1];
      var keys := TypeKeys(init);
      var v := Value(sections[|sections| - 1].sectionType);
      TypeKeysDistinct(init);
      if v !in keys {
        var keys' := keys + [v];
        forall a, b | 0 <= a < b < |keys'| ensures keys'[a] != keys'[b] {
          assert keys'[a] == keys[a];
          if b < |keys| {
            assert keys'[b] == keys[b];
          }
        }
      }
    }
  }

  lemma {:induction false} TypeCountsKeys(sections: seq<AcademicSection>)
    ensures forall v :: v in TypeCounts(sections) <==> v in TypeKeys(sections)
    ensures forall v | v in TypeCounts(sections) :: TypeCounts(sections)[v] >= 1
  {
    if sections != [] {
      TypeCountsKeys(sections[..|sections| - 1]);
    }
  }

  lemma TypeKeysOccur(sections: seq<AcademicSection>)
    ensures forall v :: v in TypeKeys(sections) <==> exists i | 0 <= i < |sections| :: Value(sections[i].sectionType) == v
  {
    forall v
      ensures v in TypeKeys(sections) <==> exists i | 0 <= i < |sections| :: Value(sections[i].sectionType) == v
    {
      if v in TypeKeys(sections) {
        var i := KeyOccurs(sections, v);
      }
      if exists i | 0 <= i < |sections| :: Value(sections[i].sectionType) == v {
        var i :| 0 <= i < |sections| && Value(sections[i].sectionType) == v;
        OccursKey(sections, i);
      }
    }
  }

  /** Every key is the type value of some section. */
  lemma {:induction false} KeyOccurs(sections: seq<AcademicSection>, v: string) returns (i: nat)
    requires v in TypeKeys(sections)
    ensures i < |sections| && Value(sections[i].sectionType) == v
  {
    var init := sections[..|sections| - 1];
    if v in TypeKeys(init) {
      i := KeyOccurs(init, v);
      assert sections[i] == init[i];
    } else {
      i := |sections| - 1;
    }
  }

  /** Every section's type value is a key. */
  lemma {:induction false} OccursKey(sections: seq<AcademicSection>, i: nat)
    requires i < |sections|
    ensures Value(sections[i].sectionType) in TypeKeys(sections)
  {
    var init := sections[..|sections| - 1];
    var keys := TypeKeys(init);
    assert forall x | x in keys :: x in TypeKeys(sections);
    if i < |init| {
      OccursKey(init, i);
      assert sections[i] == init[i];
    }
  }

  /** The sum of `counts` over `keys`. */
  function SumCounts(keys: seq<string>, counts: map<string, nat>): nat
    requires forall k | k in keys :: k in counts
  {
    if keys == [] then 0 else counts[keys[0]] + SumCounts(keys[1..], counts)
  }

  lemma {:induction false} SumCountsAppend(keys: seq<string>, v: string, counts: map<string, nat>)
    requires forall k | k in keys + [v] :: k in counts
    ensures SumCounts(keys + [v], counts) == SumCounts(keys, counts) + counts[v]
  {
    if keys != [] {
      assert (keys + [v])[1..] == keys[1..] + [v];
      SumCountsAppend(keys[1..], v, counts);
    }
  }

  lemma {:induction false} SumCountsUpdate(keys: seq<string>, counts: map<string, nat>, v: string, n: nat)
    requires forall k | k in keys :: k in counts
    requires v !in keys
    ensures SumCounts(keys, counts[v := n]) == SumCounts(keys, counts)
  {
    if keys != [] {
      SumCountsUpdate(keys[1..], counts, v, n);
    }
  }

  lemma {:induction false} SumCountsIncrement(keys: seq<string>, counts: map<string, nat>, v: string)
    requires forall k | k in keys :: k in counts
    requires forall a, b | 0 <= a < b < |keys| :: keys[a] != keys[b]
    requires v in keys
    ensures SumCounts(keys, counts[v := counts[v] + 1]) == SumCounts(keys, counts) + 1
  {
    if keys[0] == v {
      assert v !in keys[1..];
      SumCountsUpdate(keys[1..], counts, v, counts[v] + 1);
    } else {
      SumCountsIncrement(keys[1..], counts, v);
    }
  }

  /** The counts add up to the number of sections. */
  lemma {:induction false} TypeCountsSum(sections: seq<AcademicSection>)
    ensures forall k | k in TypeKeys(sections) :: k in TypeCounts(sections)
    ensures SumCounts(TypeKeys(sections), TypeCounts(sections)) == |sections|
  {
    TypeKeysSpec(sections);
    if sections != [] {
      var init := sections[..|sections| - 1];
      var keys := TypeKeys(init);
      var counts := TypeCounts(init);
      var v := Value(sections[|sections| - 1].sectionType);
      TypeCountsSum(init);
      TypeKeysSpec(init);
      if v in keys {
        SumCountsIncrement(keys, counts, v);
      } else {
        SumCountsUpdate(keys, counts, v, 1);
        SumCountsAppend(keys, v, counts[v := 1]);
      }
    }
  }

  /** One more section, of type value `v`, extends the keys, the counts and the total
      length by its own. */
  lemma SummaryStep(sections: seq<AcademicSection>, i: nat, v: string)
    requires i < |sections| && v == Value(sections[i].sectionType)
    ensures v in TypeCounts(sections[..i]) <==> v in TypeKeys(sections[..i])
    ensures v in TypeKeys(sections[..i]) ==> TypeKeys(sections[..i + 1]) == TypeKeys(sections[..i])
    ensures v !in TypeKeys(sections[..i]) ==> TypeKeys(sections[..i + 1]) == TypeKeys(sections[..i]) + [v]
    ensures TypeCounts(sections[..i + 1]) ==
      TypeCounts(sections[..i])[v := (if v in TypeCounts(sections[..i]) then TypeCounts(sections[..i])[v] else 0) + 1]
    ensures TotalLength(sections[..i + 1]) == TotalLength(sections[..i]) + |sections[i].content|
  {
    var pre := sections[..i];
    assert sections[..i + 1][..i] == pre && sections[..i + 1][i] == sections[i];
    TypeKeysSpec(pre);
  }

  /** One pass of the counting loop of `get_section_summary`: count section `i`. */
  method Tally(sections: seq<AcademicSection>, i: nat, keys: seq<string>, counts: map<string, nat>, total: nat)
    returns (keys': seq<string>, counts': map<string, nat>, total': nat)
    requires i < |sections|
    requires keys == TypeKeys(sections[..i]) && counts == TypeCounts(sections[..i])
    requires total == TotalLength(sections[..i])
    ensures keys' == TypeKeys(sections[..i + 1]) && counts' == TypeCounts(sections[..i + 1])
    ensures total' == TotalLength(sections[..i + 1])
  {
    var v := Value(sections[i].sectionType);
    SummaryStep(sections, i, v);
    if v in counts {
      keys', counts' := keys, counts[v := counts[v] + 1];
    } else {
      keys', counts' := keys + [v], counts[v := 1];
    }
    total' := total + |sections[i].content|;
  }

  /** `get_section_summary`. */
  method GetSectionSummary(sections: seq<AcademicSection>) returns (summary: SectionSummary)
    ensures summary.totalSections == |sections|
    ensures summary.sectionTypes == TypeKeys(sections)
    ensures summary.sectionCounts == TypeCounts(sections)
    ensures summary.totalContentLength == TotalLength(sections)
    ensures summary.averageSectionLength == if sections == [] then 0 else TotalLength(sections) / |sections|
  {
    var counts: map<string, nat> := map[];
    var keys: seq<string> := [];
    var total := 0;
    for i := 0 to |sections|
      invariant keys == TypeKeys(sections[..i])
      invariant counts == TypeCounts(sections[..i])
      invariant total == TotalLength(sections[..i])
    {
      keys, counts, total := Tally(sections, i, keys, counts, total);
    }
    assert sections[..|sections|] == sections;
    var average := if sections == [] then 0 else total / |sections|;
    summary := SectionSummary(|sections|, keys, counts, total, average);
  }
}
