/** Splitting academic sections into chunks that fit the summariser's context window
    (backend/services/chunk_manager.py).  The manager's `max_chunk_size` is the
    parameter `maxSize`; its other settings are constants. */
module ChunkManager {
  import opened Wrappers
  import opened Text
  import Seqs
  import SectionDetector

  /** Smallest chunk worth keeping, in characters. */
  const MinChunkSize: nat := 100
  /** How far the next window reaches back into the previous one. */
  const OverlapSize: nat := 200

  datatype TextChunk = TextChunk(
    content: string,
    section: string,
    sectionType: string,
    chunkIndex: nat,
    characterCount: nat,
    wordCount: nat,
    sentenceCount: nat)

  // ---------------------------------------------------------------- break patterns

  /** The three regular expressions the break-point search uses:
      `[.!?]+\s+`, `\n\s*\n` and `\n`. */
  datatype Pattern = SentenceEnd | ParagraphBreak | LineBreak

  predicate IsTerminator(c: char) { c == '.' || c == '!' || c == '?' }

  /** Length of the leading run of sentence terminators. */
  function TermLen(s: string): (n: nat)
    ensures n <= |s|
    ensures forall i | 0 <= i < n :: IsTerminator(s[i])
    ensures n < |s| ==> !IsTerminator(s[n])
  {
    if s != [] && IsTerminator(s[0]) then 1 + TermLen(s[1..]) else 0
  }

  /** Index of the last occurrence of `c` in `s`. */
  function LastIndexOf(s: string, c: char): (r: Option<nat>)
    ensures r.None? <==> c !in s
    ensures r.Some? ==> r.value < |s| && s[r.value] == c && forall j | r.value < j < |s| :: s[j] != c
  {
    if s == [] then None
    else if s[|s| - 1] == c then Some(|s| - 1)
    else LastIndexOf(s[..|s| - 1], c)
  }

  /** End of the match of `pat` that starts at index `i` of `s`, if one does.
      For `[.!?]+\s+` the greedy run of terminators must be followed by whitespace (giving
      terminators back cannot help, since a terminator is not whitespace), and the match
      then takes the whole whitespace run.  For `\n\s*\n` the greedy `\s*` takes the
      whitespace run after the newline and gives it back up to the run's last newline. */
  function MatchAt(pat: Pattern, s: string, i: nat): (e: Option<nat>)
    requires i < |s|
    ensures e.Some? ==> i < e.value <= |s|
  {
    match pat
    case SentenceEnd =>
      var t := TermLen(s[i..]);
      if 0 < t && i + t < |s| && IsSpace(s[i + t]) then Some(i + t + LeadLen(s[i + t..])) else None
    case ParagraphBreak =>
      if s[i] != '\n' then None
      else
        var w := LeadLen(s[i + 1..]);
        (match LastIndexOf(s[i + 1..i + 1 + w], '\n')
         case Some(k) => Some(i + 1 + k + 1)
         case None => None)
    case LineBreak =>
      if s[i] == '\n' then Some(i + 1) else None
  }

  /** A table of match ends by start index: every match ends after it starts and
      within the text. */
  predicate ValidTable(t: seq<Option<nat>>) {
    forall i | 0 <= i < |t| :: t[i].Some? ==> i < t[i].value <= |t|
  }

  /** The end of the match of `pat` starting at each index of `s`. */
  function MatchTable(pat: Pattern, s: string): (t: seq<Option<nat>>)
    ensures |t| == |s| && ValidTable(t)
  {
    seq(|s|, i requires 0 <= i < |s| => MatchAt(pat, s, i))
  }

  /** The leftmost-first scan of `re.finditer` over a table of match ends, from `p`:
      each search starts where the previous match ended. */
  function Search(t: seq<Option<nat>>, p: nat): (r: seq<(nat, nat)>)
    requires ValidTable(t) && p <= |t|
    ensures |r| <= |t| - p
    ensures forall k | 0 <= k < |r| :: p <= r[k].0 < r[k].1 <= |t|
    decreases |t| - p
  {
    if p == |t| then []
    else
      match t[p]
      case Some(e) => [(p, e)] + Search(t, e)
      case None => Search(t, p + 1)
  }

  /** `re.finditer(pat, s[p:])` as (start, end) pairs. */
  function Matches(pat: Pattern, s: string, p: nat): (r: seq<(nat, nat)>)
    requires p <= |s|
    ensures |r| <= |s| - p
    ensures forall k | 0 <= k < |r| :: p <= r[k].0 < r[k].1 <= |s|
  {
    Search(MatchTable(pat, s), p)
  }

  /** The last match of `pat` in `s`, as `list(re.finditer(pat, s))[-1]`. */
  function LastMatch(pat: Pattern, s: string): (r: Option<(nat, nat)>)
    ensures r.Some? ==> r.value.0 < r.value.1 <= |s|
  {
    var ms := Matches(pat, s, 0);
    if ms == [] then None else Some(ms[|ms| - 1])
  }

  /** The search from `p` finds nothing exactly when no match starts at or after `p`. */
  lemma {:induction false} SearchEmpty(t: seq<Option<nat>>, p: nat)
    requires ValidTable(t) && p <= |t|
    ensures Search(t, p) == [] <==> forall i | p <= i < |t| :: t[i].None?
    decreases |t| - p
  {
    if p < |t| {
      SearchEmpty(t, p + 1);
    }
  }

  /** The last match `ms` found from `p` is a match, and no match starts at or after its
      end. */
  lemma {:induction false} SearchLast(t: seq<Option<nat>>, p: nat, ms: seq<(nat, nat)>)
    requires ValidTable(t) && p <= |t| && ms == Search(t, p) && ms != []
    ensures t[ms[|ms| - 1].0] == Some(ms[|ms| - 1].1)
    ensures forall i | ms[|ms| - 1].1 <= i < |t| :: t[i].None?
    decreases |t| - p
  {
    match t[p]
    case Some(e) =>
      var rest := Search(t, e);
      if rest == [] {
        SearchEmpty(t, e);
      } else {
        assert ms[|ms| - 1] == rest[|rest| - 1];
        SearchLast(t, e, rest);
      }
    case None =>
      SearchLast(t, p + 1, ms);
  }

  /** The last match of `pat` in `s` is a match, and no match starts at or after its end;
      there is none exactly when the pattern matches nowhere. */
  lemma LastMatchSpec(pat: Pattern, s: string)
    ensures LastMatch(pat, s).None? <==> forall i | 0 <= i < |s| :: MatchAt(pat, s, i).None?
    ensures LastMatch(pat, s).Some? ==>
      && MatchAt(pat, s, LastMatch(pat, s).value.0) == Some(LastMatch(pat, s).value.1)
      && forall i | LastMatch(pat, s).value.1 <= i < |s| :: MatchAt(pat, s, i).None?
  {
    var t := MatchTable(pat, s);
    assert forall i | 0 <= i < |s| :: t[i] == MatchAt(pat, s, i);
    var ms := Search(t, 0);
    assert LastMatch(pat, s) == if ms == [] then None else Some(ms[|ms| - 1]);
    SearchEmpty(t, 0);
    if ms != [] {
      SearchLast(t, 0, ms);
    }
  }

  /** A sentence terminator at `j` directly followed by whitespace. */
  predicate SentenceEndAt(s: string, j: int) {
    0 <= j && j + 1 < |s| && IsTerminator(s[j]) && IsSpace(s[j + 1])
  }

  /** The last sentence terminator of `s` that is directly followed by whitespace. */
  predicate LastSentenceEnd(s: string, j: int) {
    SentenceEndAt(s, j) && forall j' | j < j' < |s| :: !SentenceEndAt(s, j')
  }

  /** A match of `[.!?]+\s+` ends after the whitespace that follows its last terminator. */
  lemma SentenceMatch(s: string, i: nat) returns (j: nat)
    requires i < |s| && MatchAt(SentenceEnd, s, i).Some?
    ensures i <= j && SentenceEndAt(s, j)
    ensures MatchAt(SentenceEnd, s, i).value == j + 1 + LeadLen(s[j + 1..])
    ensures forall j' | j < j' < MatchAt(SentenceEnd, s, i).value :: !SentenceEndAt(s, j')
  {
    var t := TermLen(s[i..]);
    j := i + t - 1;
    assert s[i..][t - 1] == s[j];
    var e := MatchAt(SentenceEnd, s, i).value;
    forall j' | j < j' < e
      ensures !SentenceEndAt(s, j')
    {
      assert s[j + 1..][j' - j - 1] == s[j'];
    }
  }

  /** A terminator followed by whitespace starts a match. */
  lemma SentenceEndMatches(s: string, j: nat)
    requires SentenceEndAt(s, j)
    ensures MatchAt(SentenceEnd, s, j).Some?
  {
    assert s[j..][0] == s[j] && s[j..][1] == s[j + 1];
  }

  /** The last `[.!?]+\s+` match of `s` ends right after the whitespace following the last
      terminator that is directly followed by whitespace; there is none exactly when no
      terminator is. */
  lemma SentenceLast(s: string)
    ensures LastMatch(SentenceEnd, s).None? <==> forall j | 0 <= j < |s| :: !SentenceEndAt(s, j)
    ensures LastMatch(SentenceEnd, s).Some? ==>
      exists j | 0 <= j < |s| :: LastSentenceEnd(s, j) && LastMatch(SentenceEnd, s).value.1 == j + 1 + LeadLen(s[j + 1..])
  {
    LastMatchSpec(SentenceEnd, s);
    var m := LastMatch(SentenceEnd, s);
    assert (forall i | 0 <= i < |s| :: MatchAt(SentenceEnd, s, i).None?) ==> forall j | 0 <= j < |s| :: !SentenceEndAt(s, j) by {
      forall j | 0 <= j < |s| && SentenceEndAt(s, j)
        ensures MatchAt(SentenceEnd, s, j).Some?
      {
        SentenceEndMatches(s, j);
      }
    }
    if m.Some? {
      var a := m.value.0;
      var b := m.value.1;
      var j := SentenceMatch(s, a);
      assert LastSentenceEnd(s, j) by {
        forall j' | b <= j' < |s| && SentenceEndAt(s, j')
          ensures false
        {
          SentenceEndMatches(s, j');
        }
      }
    }
  }

  /** A newline, then whitespace only, then another newline at `k`: a blank-line break. */
  predicate BlankLineAt(s: string, i: int, k: int) {
    0 <= i < k < |s| && s[i] == '\n' && s[k] == '\n' && AllSpace(s[i + 1..k])
  }

  /** The whitespace run after a blank-line break's first newline reaches its second. */
  lemma BlankLineRun(s: string, i: nat, k: nat)
    requires BlankLineAt(s, i, k)
    ensures k - i <= LeadLen(s[i + 1..])
    ensures s[i + 1..i + 1 + LeadLen(s[i + 1..])][k - i - 1] == '\n'
  {
    var t := s[i + 1..];
    forall m | 0 <= m < k - i
      ensures IsSpace(t[m])
    {
      if m < k - i - 1 {
        assert t[m] == s[i + 1..k][m];
      }
    }
  }

  /** A `\n\s*\n` match spans a blank-line break. */
  lemma ParagraphMatchSpans(s: string, i: nat, e: nat)
    requires i < |s| && MatchAt(ParagraphBreak, s, i) == Some(e)
    ensures BlankLineAt(s, i, e - 1)
  {
    var t := s[i + 1..];
    var w := LeadLen(t);
    var run := s[i + 1..i + 1 + w];
    var k := LastIndexOf(run, '\n').value;
    assert e == i + 1 + k + 1;
    assert s[i + 1 + k] == '\n' by {
      assert run[k] == s[i + 1 + k];
    }
    var blank := s[i + 1..i + 1 + k];
    assert AllSpace(blank) by {
      forall m | 0 <= m < k ensures IsSpace(blank[m]) {
        assert blank[m] == t[m];
      }
    }
  }

  /** `\n\s*\n` matches where a blank-line break starts. */
  lemma BlankLineMatches(s: string, i: nat, k: nat)
    requires BlankLineAt(s, i, k)
    ensures MatchAt(ParagraphBreak, s, i).Some?
  {
    BlankLineRun(s, i, k);
    var run := s[i + 1..i + 1 + LeadLen(s[i + 1..])];
    assert '\n' in run;
  }

  /** A match of `\n\s*\n` starts exactly at a blank-line break and ends after its
      last newline. */
  lemma ParagraphMatch(s: string, i: nat)
    requires i < |s|
    ensures MatchAt(ParagraphBreak, s, i).Some? <==> exists k :: BlankLineAt(s, i, k)
    ensures MatchAt(ParagraphBreak, s, i).Some? ==> BlankLineAt(s, i, MatchAt(ParagraphBreak, s, i).value - 1)
  {
    if MatchAt(ParagraphBreak, s, i).Some? {
      ParagraphMatchSpans(s, i, MatchAt(ParagraphBreak, s, i).value);
    } else {
      forall k | BlankLineAt(s, i, k)
        ensures false
      {
        BlankLineMatches(s, i, k);
      }
    }
  }

  /** With no `\n\s*\n` match anywhere, `s` has no blank-line break. */
  lemma NoParagraphBreak(s: string)
    requires forall i | 0 <= i < |s| :: MatchAt(ParagraphBreak, s, i).None?
    ensures forall i, k :: !BlankLineAt(s, i, k)
  {
    forall i, k | BlankLineAt(s, i, k)
      ensures false
    {
      BlankLineMatches(s, i, k);
    }
  }

  /** A match from `a` to `b` with no match after it spans a blank-line break, and
      every blank-line break starts before `b`. */
  lemma FinalParagraphBreak(s: string, a: nat, b: nat)
    requires a < |s| && MatchAt(ParagraphBreak, s, a) == Some(b)
    requires forall i | b <= i < |s| :: MatchAt(ParagraphBreak, s, i).None?
    ensures BlankLineAt(s, a, b - 1)
    ensures forall i, k | BlankLineAt(s, i, k) :: i < b
  {
    ParagraphMatchSpans(s, a, b);
    forall i, k | BlankLineAt(s, i, k)
      ensures i < b
    {
      if b <= i {
        BlankLineMatches(s, i, k);
      }
    }
  }

  /** The last `\n\s*\n` match `m` of `s` starts at a blank-line break, and every
      blank-line break of `s` starts before the match ends; there is none exactly when
      `s` has no blank-line break. */
  lemma ParagraphLast(s: string, m: Option<(nat, nat)>)
    requires m == LastMatch(ParagraphBreak, s)
    ensures m.None? <==> forall i, k :: !BlankLineAt(s, i, k)
    ensures m.Some? ==>
      && BlankLineAt(s, m.value.0, m.value.1 - 1)
      && forall i, k | BlankLineAt(s, i, k) :: i < m.value.1
  {
    if m.None? {
      ParagraphNone(s);
    } else {
      ParagraphSome(s, m.value.0, m.value.1);
    }
  }

  lemma ParagraphNone(s: string)
    requires LastMatch(ParagraphBreak, s).None?
    ensures forall i, k :: !BlankLineAt(s, i, k)
  {
    LastMatchSpec(ParagraphBreak, s);
    NoParagraphBreak(s);
  }

  lemma ParagraphSome(s: string, a: nat, b: nat)
    requires LastMatch(ParagraphBreak, s) == Some((a, b))
    ensures BlankLineAt(s, a, b - 1)
    ensures forall i, k | BlankLineAt(s, i, k) :: i < b
  {
    LastMatchSpec(ParagraphBreak, s);
    FinalParagraphBreak(s, a, b);
  }

  /** The last `\n` match of `s` is its last newline. */
  lemma LineLast(s: string, m: Option<(nat, nat)>)
    requires m == LastMatch(LineBreak, s)
    ensures m.None? <==> '\n' !in s
    ensures m.Some? ==> LastIndexOf(s, '\n') == Some(m.value.0)
  {
    if m.None? {
      assert forall i | 0 <= i < |s| :: MatchAt(LineBreak, s, i).None? by {
        LastMatchSpec(LineBreak, s);
      }
      forall i | 0 <= i < |s|
        ensures s[i] != '\n'
      {
        assert MatchAt(LineBreak, s, i).None?;
      }
    } else {
      var a, b := m.value.0, m.value.1;
      assert MatchAt(LineBreak, s, a) == Some(b) && forall i | b <= i < |s| :: MatchAt(LineBreak, s, i).None? by {
        LastMatchSpec(LineBreak, s);
      }
      assert s[a] == '\n';
      forall j | a < j < |s|
        ensures s[j] != '\n'
      {
        assert MatchAt(LineBreak, s, j).None?;
      }
    }
  }
  // ---------------------------------------------------------------- break point

  /** Start of the region searched for a break: the last fifth of a full window. */
  function SearchStart(maxEnd: nat, maxSize: nat): int {
    maxEnd - maxSize / 5
  }

  /** The word-boundary fallback: the length of the window's words but the last, joined
      by single spaces, counted from `start`. */
  function WordBoundary(text: string, start: nat, maxEnd: nat): nat
    requires start <= maxEnd <= |text|
    requires |Words(text[start..maxEnd])| > 1
  {
    var words := Words(text[start..maxEnd]);
    start + |Join(words[..|words| - 1], " ")|
  }

  /** `_find_optimal_break_point`: where a chunk that may not reach past `maxEnd` ends.
      In order of preference: after the last sentence end in the last fifth of the
      window, at the last blank-line break there, at the last newline there, before the
      window's last word, or at `maxEnd`. */
  function FindBreakPoint(text: string, start: nat, maxEnd: nat, maxSize: nat): (r: nat)
    requires start <= maxEnd <= |text|
    requires maxSize / 5 <= maxEnd - start
    ensures start <= r <= maxEnd
  {
    var searchStart := SearchStart(maxEnd, maxSize);
    var region := text[searchStart..maxEnd];
    match LastMatch(SentenceEnd, region)
    case Some(m) => searchStart + m.1
    case None =>
      match LastMatch(ParagraphBreak, region)
      case Some(m) => searchStart + m.0
      case None =>
        match LastMatch(LineBreak, region)
        case Some(m) => searchStart + m.0
        case None =>
          if |Words(text[start..maxEnd])| > 1 then Min(WordBoundary(text, start, maxEnd), maxEnd - 1)
          else maxEnd
  }
  /** First preference: when the searched region holds a sentence terminator followed by
      whitespace, the break comes right after the whitespace that follows the last one. */
  lemma BreakAtSentence(text: string, start: nat, maxEnd: nat, maxSize: nat, region: string) returns (j: nat)
    requires start <= maxEnd <= |text| && maxSize / 5 <= maxEnd - start
    requires region == text[SearchStart(maxEnd, maxSize)..maxEnd]
    requires exists j | 0 <= j < |region| :: SentenceEndAt(region, j)
    ensures j < |region| && LastSentenceEnd(region, j)
    ensures FindBreakPoint(text, start, maxEnd, maxSize) == SearchStart(maxEnd, maxSize) + j + 1 + LeadLen(region[j + 1..])
  {
    SentenceLast(region);
    j :| 0 <= j < |region| && LastSentenceEnd(region, j)
      && LastMatch(SentenceEnd, region).value.1 == j + 1 + LeadLen(region[j + 1..]);
  }

  /** Second preference: with no sentence end but a blank-line break in the region, the
      break is at the first newline of a blank-line break, and every blank-line break of
      the region starts before the newlines of that one end. */
  lemma BreakAtParagraph(text: string, start: nat, maxEnd: nat, maxSize: nat, region: string) returns (e: nat)
    requires start <= maxEnd <= |text| && maxSize / 5 <= maxEnd - start
    requires region == text[SearchStart(maxEnd, maxSize)..maxEnd]
    requires forall j | 0 <= j < |region| :: !SentenceEndAt(region, j)
    requires exists i, k :: BlankLineAt(region, i, k)
    ensures BlankLineAt(region, FindBreakPoint(text, start, maxEnd, maxSize) - SearchStart(maxEnd, maxSize), e)
    ensures forall i, k | BlankLineAt(region, i, k) :: i <= e
  {
    assert LastMatch(SentenceEnd, region).None? by {
      SentenceLast(region);
    }
    assert LastMatch(ParagraphBreak, region).Some? by {
      ParagraphLast(region, LastMatch(ParagraphBreak, region));
    }
    ParagraphBreakPoint(text, start, maxEnd, maxSize, region);
    e := ParagraphChoice(region, FindBreakPoint(text, start, maxEnd, maxSize) - SearchStart(maxEnd, maxSize));
  }

  /** The break the paragraph rule picks is the start of the region's last blank line. */
  lemma ParagraphChoice(region: string, d: int) returns (e: nat)
    requires LastMatch(ParagraphBreak, region).Some? && d == LastMatch(ParagraphBreak, region).value.0
    ensures BlankLineAt(region, d, e)
    ensures forall i, k | BlankLineAt(region, i, k) :: i <= e
  {
    var m := LastMatch(ParagraphBreak, region);
    ParagraphLast(region, m);
    e := m.value.1 - 1;
  }

  lemma ParagraphBreakPoint(text: string, start: nat, maxEnd: nat, maxSize: nat, region: string)
    requires start <= maxEnd <= |text| && maxSize / 5 <= maxEnd - start
    requires region == text[SearchStart(maxEnd, maxSize)..maxEnd]
    requires LastMatch(SentenceEnd, region).None? && LastMatch(ParagraphBreak, region).Some?
    ensures FindBreakPoint(text, start, maxEnd, maxSize) == SearchStart(maxEnd, maxSize) + LastMatch(ParagraphBreak, region).value.0
  {
  }

  /** Third preference: with neither of those but a newline in the region, the break is at
      the region's last newline. */
  lemma BreakAtLine(text: string, start: nat, maxEnd: nat, maxSize: nat, region: string)
    requires start <= maxEnd <= |text| && maxSize / 5 <= maxEnd - start
    requires region == text[SearchStart(maxEnd, maxSize)..maxEnd]
    requires forall j | 0 <= j < |region| :: !SentenceEndAt(region, j)
    requires forall i, k :: !BlankLineAt(region, i, k)
    requires '\n' in region
    ensures LastIndexOf(region, '\n') == Some(FindBreakPoint(text, start, maxEnd, maxSize) - SearchStart(maxEnd, maxSize))
  {
    SentenceLast(region);
    ParagraphLast(region, LastMatch(ParagraphBreak, region));
    LineLast(region, LastMatch(LineBreak, region));
  }

  /** Last resorts: with no sentence end and no newline in the region, the break goes
      before the window's last word (but at least one character before `maxEnd`) when the
      window has two words or more, and at `maxEnd` otherwise. */
  lemma BreakAtWord(text: string, start: nat, maxEnd: nat, maxSize: nat, region: string)
    requires start <= maxEnd <= |text| && maxSize / 5 <= maxEnd - start
    requires region == text[SearchStart(maxEnd, maxSize)..maxEnd]
    requires forall j | 0 <= j < |region| :: !SentenceEndAt(region, j)
    requires '\n' !in region
    ensures |Words(text[start..maxEnd])| > 1 ==>
      FindBreakPoint(text, start, maxEnd, maxSize) == Min(WordBoundary(text, start, maxEnd), maxEnd - 1)
    ensures |Words(text[start..maxEnd])| <= 1 ==> FindBreakPoint(text, start, maxEnd, maxSize) == maxEnd
  {
    SentenceLast(region);
    ParagraphLast(region, LastMatch(ParagraphBreak, region));
    LineLast(region, LastMatch(LineBreak, region));
  }
  // ---------------------------------------------------------------- chunks

  /** `_create_chunk`: a chunk with its character, word and sentence counts.  Sentences
      are counted as the `[.!?]+\s+` matches of the content with a space appended, and
      a chunk always counts at least one. */
  function CreateChunk(content: string, section: string, sectionType: string, index: nat): (c: TextChunk)
    ensures c.content == content && c.section == section && c.sectionType == sectionType
    ensures c.chunkIndex == index && c.characterCount == |content|
    ensures 1 <= c.sentenceCount <= |content| + 1
  {
    var sentences := |Matches(SentenceEnd, content + " ", 0)|;
    TextChunk(content, section, sectionType, index, |content|, |Words(content)|, Max(sentences, 1))
  }

  /** Where the window starting at `pos` ends: a full window is cut at a break point. */
  function ChunkEnd(content: string, maxSize: nat, pos: nat): (e: nat)
    requires pos < |content|
    ensures pos <= e <= |content| && e <= pos + maxSize
  {
    var e := Min(pos + maxSize, |content|);
    if e < |content| then FindBreakPoint(content, pos, e, maxSize) else e
  }

  /** Where the next window starts: `OverlapSize` characters back from the end of this
      one, but never less than `MinChunkSize` ahead of this one's start. */
  function NextPos(pos: nat, end: nat): (next: nat)
    ensures next >= pos + MinChunkSize
  {
    Max(end - OverlapSize, pos + MinChunkSize)
  }

  /** Start positions of the windows the splitter visits from `pos` on: each one at least
      `MinChunkSize` past the previous, all inside the content. */
  function Windows(content: string, maxSize: nat, pos: nat): (ws: seq<nat>)
    ensures forall k | 0 <= k < |ws| :: pos <= ws[k] < |content|
    ensures forall k | 0 < k < |ws| :: ws[k - 1] + MinChunkSize <= ws[k]
    decreases |content| - pos
  {
    if pos >= |content| then []
    else [pos] + Windows(content, maxSize, NextPos(pos, ChunkEnd(content, maxSize, pos)))
  }

  /** The stripped text of the window starting at `w`. */
  function WindowText(content: string, maxSize: nat, w: nat): string
    requires w < |content|
  {
    Strip(content[w..ChunkEnd(content, maxSize, w)])
  }

  /** The stripped texts of the windows `ws`, one per window. */
  function WindowTexts(content: string, maxSize: nat, ws: seq<nat>): (ts: seq<string>)
    requires forall k | 0 <= k < |ws| :: ws[k] < |content|
    ensures |ts| == |ws|
    ensures forall k | 0 <= k < |ws| :: ts[k] == WindowText(content, maxSize, ws[k])
  {
    seq(|ws|, k requires 0 <= k < |ws| => WindowText(content, maxSize, ws[k]))
  }

  /** The texts of `ts` that are long enough to become chunks, in order. */
  function LongEnough(ts: seq<string>): seq<string> {
    if ts == [] then []
    else LongEnough(ts[..|ts| - 1]) + if |ts[|ts| - 1]| >= MinChunkSize then [ts[|ts| - 1]] else []
  }

  /** The texts of the windows `ws` that are long enough to become chunks, in order. */
  function Pieces(content: string, maxSize: nat, ws: seq<nat>): seq<string>
    requires forall k | 0 <= k < |ws| :: ws[k] < |content|
  {
    LongEnough(WindowTexts(content, maxSize, ws))
  }

  /** Chunks holding `pieces`, numbered consecutively from `index`. */
  function Numbered(pieces: seq<string>, name: string, sectionType: string, index: nat): (r: seq<TextChunk>)
    ensures |r| == |pieces|
    ensures forall k | 0 <= k < |r| :: r[k] == CreateChunk(pieces[k], name, sectionType, index + k)
  {
    seq(|pieces|, k requires 0 <= k < |pieces| => CreateChunk(pieces[k], name, sectionType, index + k))
  }

  /** The chunks `_split_large_section` emits, numbered from `index`. */
  function SplitChunks(content: string, name: string, sectionType: string, maxSize: nat, index: nat): seq<TextChunk> {
    Numbered(Pieces(content, maxSize, Windows(content, maxSize, 0)), name, sectionType, index)
  }

  lemma PiecesAppend(content: string, maxSize: nat, ws: seq<nat>, w: nat)
    requires forall k | 0 <= k < |ws| :: ws[k] < |content|
    requires w < |content|
    ensures Pieces(content, maxSize, ws + [w]) == Pieces(content, maxSize, ws)
      + if |WindowText(content, maxSize, w)| >= MinChunkSize then [WindowText(content, maxSize, w)] else []
  {
    var ts := WindowTexts(content, maxSize, ws + [w]);
    assert ts[..|ws|] == WindowTexts(content, maxSize, ws);
    assert ts[|ws|] == WindowText(content, maxSize, w);
  }

  lemma NumberedAppend(pieces: seq<string>, p: string, name: string, sectionType: string, index: nat)
    ensures Numbered(pieces + [p], name, sectionType, index)
      == Numbered(pieces, name, sectionType, index) + [CreateChunk(p, name, sectionType, index + |pieces|)]
  {
    var a := Numbered(pieces + [p], name, sectionType, index);
    var b := Numbered(pieces, name, sectionType, index) + [CreateChunk(p, name, sectionType, index + |pieces|)];
    forall k | 0 <= k < |a|
      ensures a[k] == b[k]
    {
      if k < |pieces| {
        assert (pieces + [p])[k] == pieces[k];
      }
    }
  }

  /** The splitter's state after visiting the windows `visited`: the windows still to
      come start at `pos`, and `chunks` holds the chunks of the visited ones. */
  predicate SplitState(content: string, name: string, sectionType: string, maxSize: nat, startIndex: nat,
                       visited: seq<nat>, chunks: seq<TextChunk>, pos: nat, chunkIndex: nat) {
    && (forall k | 0 <= k < |visited| :: visited[k] < |content|)
    && Windows(content, maxSize, 0) == visited + Windows(content, maxSize, pos)
    && chunks == Numbered(Pieces(content, maxSize, visited), name, sectionType, startIndex)
    && chunkIndex == startIndex + |chunks|
  }

  lemma NumberedStep(pieces: seq<string>, text: string, name: string, sectionType: string, startIndex: nat,
                     chunks: seq<TextChunk>, chunkIndex: nat)
    requires chunks == Numbered(pieces, name, sectionType, startIndex)
    requires chunkIndex == startIndex + |chunks|
    ensures chunks + [CreateChunk(text, name, sectionType, chunkIndex)]
      == Numbered(pieces + [text], name, sectionType, startIndex)
  {
    NumberedAppend(pieces, text, name, sectionType, startIndex);
  }

  lemma WindowsStep(content: string, maxSize: nat, visited: seq<nat>, pos: nat)
    requires pos < |content|
    requires Windows(content, maxSize, 0) == visited + Windows(content, maxSize, pos)
    ensures Windows(content, maxSize, 0)
      == (visited + [pos]) + Windows(content, maxSize, NextPos(pos, ChunkEnd(content, maxSize, pos)))
  {
    var next := NextPos(pos, ChunkEnd(content, maxSize, pos));
    assert Windows(content, maxSize, pos) == [pos] + Windows(content, maxSize, next);
    Seqs.AppendAssoc(visited, [pos], Windows(content, maxSize, next));
  }

  /** One window of the splitter: the window starting at `pos` adds its chunk when its
      text is long enough, and the next window starts at `next`. */
  lemma SplitAdvance(content: string, name: string, sectionType: string, maxSize: nat, startIndex: nat,
                     visited: seq<nat>, chunks: seq<TextChunk>, pos: nat, chunkIndex: nat,
                     text: string, chunks': seq<TextChunk>, next: nat, chunkIndex': nat)
    requires SplitState(content, name, sectionType, maxSize, startIndex, visited, chunks, pos, chunkIndex)
    requires pos < |content|
    requires text == WindowText(content, maxSize, pos)
    requires next == NextPos(pos, ChunkEnd(content, maxSize, pos))
    requires |text| >= MinChunkSize ==>
      chunks' == chunks + [CreateChunk(text, name, sectionType, chunkIndex)] && chunkIndex' == chunkIndex + 1
    requires |text| < MinChunkSize ==> chunks' == chunks && chunkIndex' == chunkIndex
    ensures SplitState(content, name, sectionType, maxSize, startIndex, visited + [pos], chunks', next, chunkIndex')
  {
    var pieces := Pieces(content, maxSize, visited);
    WindowsStep(content, maxSize, visited, pos);
    assert forall k | 0 <= k < |visited + [pos]| :: (visited + [pos])[k] < |content|;
    if |text| >= MinChunkSize {
      assert Pieces(content, maxSize, visited + [pos]) == pieces + [text] by {
        PiecesAppend(content, maxSize, visited, pos);
      }
      NumberedStep(pieces, text, name, sectionType, startIndex, chunks, chunkIndex);
    } else {
      assert Pieces(content, maxSize, visited + [pos]) == pieces by {
        PiecesAppend(content, maxSize, visited, pos);
      }
    }
  }

  /** `_split_large_section`: slides a window of at most `maxSize` characters over the
      stripped content.  The loop ends because every step moves the window start forward
      by at least `MinChunkSize`. */
  method SplitLargeSection(section: SectionDetector.AcademicSection, startIndex: nat, maxSize: nat)
    returns (chunks: seq<TextChunk>)
    ensures chunks == SplitChunks(Strip(section.content), section.name,
      SectionDetector.Value(section.sectionType), maxSize, startIndex)
  {
    var content := Strip(section.content);
    var name := section.name;
    var sectionType := SectionDetector.Value(section.sectionType);
    chunks := [];
    var currentPos: nat := 0;
    var chunkIndex := startIndex;
    ghost var visited: seq<nat> := [];
    while currentPos < |content|
      invariant SplitState(content, name, sectionType, maxSize, startIndex, visited, chunks, currentPos, chunkIndex)
      decreases |content| - currentPos
    {
      ghost var pos0 := currentPos;
      chunks, currentPos, chunkIndex :=
        SplitWindow(content, name, sectionType, maxSize, startIndex, visited, chunks, currentPos, chunkIndex);
      visited := visited + [pos0];
    }
    assert visited == Windows(content, maxSize, 0);
  }

  /** One window of the splitting loop: cut at a break point, keep the stripped text as
      the next chunk when it is long enough, and step back by the overlap. */
  method SplitWindow(content: string, name: string, sectionType: string, maxSize: nat, startIndex: nat,
                     ghost visited: seq<nat>, chunks: seq<TextChunk>, currentPos: nat, chunkIndex: nat)
    returns (chunks': seq<TextChunk>, next: nat, chunkIndex': nat)
    requires SplitState(content, name, sectionType, maxSize, startIndex, visited, chunks, currentPos, chunkIndex)
    requires currentPos < |content|
    ensures next > currentPos
    ensures SplitState(content, name, sectionType, maxSize, startIndex, visited + [currentPos], chunks', next, chunkIndex')
  {
    var chunkEnd := Min(currentPos + maxSize, |content|);
    if chunkEnd < |content| {
      chunkEnd := FindBreakPoint(content, currentPos, chunkEnd, maxSize);
    }
    var chunkContent := Strip(content[currentPos..chunkEnd]);
    chunks', chunkIndex' := chunks, chunkIndex;
    if |chunkContent| >= MinChunkSize {
      chunks' := chunks + [CreateChunk(chunkContent, name, sectionType, chunkIndex)];
      chunkIndex' := chunkIndex + 1;
    }
    next := Max(chunkEnd - OverlapSize, currentPos + MinChunkSize);
    assert chunkEnd == ChunkEnd(content, maxSize, currentPos);
    SplitAdvance(content, name, sectionType, maxSize, startIndex, visited, chunks, currentPos, chunkIndex,
      chunkContent, chunks', next, chunkIndex');
  }

  /** Every text `LongEnough` keeps is one of its inputs and is long enough. */
  lemma {:induction false} LongEnoughFrom(ts: seq<string>, kept: seq<string>, k: nat) returns (j: nat)
    requires kept == LongEnough(ts) && k < |kept|
    ensures j < |ts| && kept[k] == ts[j]
    ensures MinChunkSize <= |kept[k]|
  {
    var init := ts[..|ts| - 1];
    var earlier := LongEnough(init);
    if k < |earlier| {
      j := LongEnoughFrom(init, earlier, k);
      assert kept[k] == earlier[k];
    } else {
      j := |ts| - 1;
    }
  }

  /** Every window text that becomes a chunk comes from one of the windows. */
  lemma PiecesFrom(content: string, maxSize: nat, ws: seq<nat>, pieces: seq<string>, k: nat)
    returns (j: nat)
    requires forall i | 0 <= i < |ws| :: ws[i] < |content|
    requires pieces == Pieces(content, maxSize, ws) && k < |pieces|
    ensures j < |ws| && pieces[k] == WindowText(content, maxSize, ws[j])
    ensures MinChunkSize <= |pieces[k]|
  {
    j := LongEnoughFrom(WindowTexts(content, maxSize, ws), pieces, k);
  }

  /** Every chunk the splitter emits: numbered `index + k`, tagged with the section, and
      the stripped text of a slice `content[a..b]` of at most `maxSize` characters, so
      that its length lies between `MinChunkSize` and `maxSize`. */
  lemma SplitChunk(content: string, name: string, sectionType: string, maxSize: nat, index: nat,
                   r: seq<TextChunk>, k: nat) returns (a: nat, b: nat)
    requires r == SplitChunks(content, name, sectionType, maxSize, index)
    requires k < |r|
    ensures r[k].chunkIndex == index + k
    ensures r[k].section == name && r[k].sectionType == sectionType
    ensures MinChunkSize <= r[k].characterCount == |r[k].content| <= maxSize
    ensures a < b <= |content| && b - a <= maxSize
    ensures r[k].content == Strip(content[a..b]) && Trimmed(r[k].content)
  {
    var ws := Windows(content, maxSize, 0);
    var pieces := Pieces(content, maxSize, ws);
    var j := PiecesFrom(content, maxSize, ws, pieces, k);
    a := ws[j];
    b := ChunkEnd(content, maxSize, a);
    assert r[k] == CreateChunk(pieces[k], name, sectionType, index + k);
    assert pieces[k] == Strip(content[a..b]);
    StripSpec(content[a..b]);
  }

  // ---------------------------------------------------------------- sections

  /** The chunks of one section, numbered from `startIndex`: its stripped content as one
      chunk when it fits, the splitter's chunks otherwise. */
  function SectionChunks(section: SectionDetector.AcademicSection, startIndex: nat, maxSize: nat): seq<TextChunk> {
    var content := Strip(section.content);
    var sectionType := SectionDetector.Value(section.sectionType);
    if |content| <= maxSize then [CreateChunk(content, section.name, sectionType, startIndex)]
    else SplitChunks(content, section.name, sectionType, maxSize, startIndex)
  }

  /** `_chunk_section` */
  method ChunkSection(section: SectionDetector.AcademicSection, startIndex: nat, maxSize: nat)
    returns (chunks: seq<TextChunk>)
    ensures chunks == SectionChunks(section, startIndex, maxSize)
  {
    var content := Strip(section.content);
    if |content| <= maxSize {
      return [CreateChunk(content, section.name, SectionDetector.Value(section.sectionType), startIndex)];
    }
    chunks := SplitLargeSection(section, startIndex, maxSize);
  }

  /** Sections `create_chunks` passes over: empty, or under `MinChunkSize` once stripped. */
  predicate Skipped(section: SectionDetector.AcademicSection) {
    section.content == [] || |Strip(section.content)| < MinChunkSize
  }

  /** The chunks `chunker` gives every section that `skip` does not pass over, in order,
      each section's chunks numbered on from the previous ones. */
  function Chained(sections: seq<SectionDetector.AcademicSection>, skip: SectionDetector.AcademicSection -> bool,
                   chunker: (SectionDetector.AcademicSection, nat) -> seq<TextChunk>, index: nat): seq<TextChunk>
    decreases |sections|
  {
    if sections == [] then []
    else if skip(sections[0]) then Chained(sections[1..], skip, chunker, index)
    else
      var cs := chunker(sections[0], index);
      cs + Chained(sections[1..], skip, chunker, index + |cs|)
  }

  /** The chunks of `sections`, numbered from `index` on. */
  function ChunksFrom(sections: seq<SectionDetector.AcademicSection>, maxSize: nat, index: nat): seq<TextChunk> {
    Chained(sections, Skipped, (section, start: nat) => SectionChunks(section, start, maxSize), index)
  }

  /** One section of `create_chunks`: a skipped section adds nothing, any other adds its
      chunks and moves the running index past them. */
  lemma ChainedStep(sections: seq<SectionDetector.AcademicSection>, skip: SectionDetector.AcademicSection -> bool,
                    chunker: (SectionDetector.AcademicSection, nat) -> seq<TextChunk>, i: nat,
                    acc: seq<TextChunk>, index: nat, acc': seq<TextChunk>, index': nat)
    requires i < |sections|
    requires skip(sections[i]) ==> acc' == acc && index' == index
    requires !skip(sections[i]) ==>
      acc' == acc + chunker(sections[i], index) && index' == index + |chunker(sections[i], index)|
    ensures acc + Chained(sections[i..], skip, chunker, index) == acc' + Chained(sections[i + 1..], skip, chunker, index')
  {
    var rest := sections[i..];
    assert rest[0] == sections[i];
    assert rest[1..] == sections[i + 1..];
    if !skip(sections[i]) {
      Seqs.AppendAssoc(acc, chunker(sections[i], index), Chained(sections[i + 1..], skip, chunker, index'));
    }
  }

  /** `create_chunks`: the chunks of every section that is not skipped, in document
      order, with one running chunk index. */
  method CreateChunks(sections: seq<SectionDetector.AcademicSection>, maxSize: nat) returns (allChunks: seq<TextChunk>)
    ensures allChunks == ChunksFrom(sections, maxSize, 0)
  {
    if sections == [] {
      return [];
    }
    allChunks := [];
    var globalChunkIndex: nat := 0;
    ghost var chunker := (section, start: nat) => SectionChunks(section, start, maxSize);
    for i := 0 to |sections|
      invariant allChunks + ChunksFrom(sections[i..], maxSize, globalChunkIndex) == ChunksFrom(sections, maxSize, 0)
    {
      var section := sections[i];
      if Skipped(section) {
        assert allChunks + ChunksFrom(sections[i + 1..], maxSize, globalChunkIndex) == ChunksFrom(sections, maxSize, 0) by {
          ChainedStep(sections, Skipped, chunker, i, allChunks, globalChunkIndex, allChunks, globalChunkIndex);
        }
        continue;
      }
      ghost var acc, index := allChunks, globalChunkIndex;
      var sectionChunks := ChunkSection(section, globalChunkIndex, maxSize);
      allChunks := allChunks + sectionChunks;
      globalChunkIndex := globalChunkIndex + |sectionChunks|;
      assert allChunks + ChunksFrom(sections[i + 1..], maxSize, globalChunkIndex) == ChunksFrom(sections, maxSize, 0) by {
        assert sectionChunks == chunker(section, index);
        ChainedStep(sections, Skipped, chunker, i, acc, index, allChunks, globalChunkIndex);
      }
    }
    assert sections[|sections|..] == [];
  }

  // ---------------------------------------------------------------- properties of create_chunks

  /** Chaining a list is chaining its two halves, the second numbered on from the first. */
  lemma {:induction false} ChainedAppend(a: seq<SectionDetector.AcademicSection>, b: seq<SectionDetector.AcademicSection>,
                                         skip: SectionDetector.AcademicSection -> bool,
                                         chunker: (SectionDetector.AcademicSection, nat) -> seq<TextChunk>, index: nat)
    ensures Chained(a + b, skip, chunker, index)
      == Chained(a, skip, chunker, index) + Chained(b, skip, chunker, index + |Chained(a, skip, chunker, index)|)
    decreases |a|
  {
    if a == [] {
      assert a + b == b;
    } else {
      assert (a + b)[0] == a[0];
      assert (a + b)[1..] == a[1..] + b;
      if skip(a[0]) {
        ChainedAppend(a[1..], b, skip, chunker, index);
      } else {
        var cs := chunker(a[0], index);
        ChainedAppend(a[1..], b, skip, chunker, index + |cs|);
        Seqs.AppendAssoc(cs, Chained(a[1..], skip, chunker, index + |cs|),
          Chained(b, skip, chunker, index + |Chained(a, skip, chunker, index)|));
      }
    }
  }

  /** Where the `k`-th chained chunk comes from: the `m`-th chunk of section `j`, whose
      chunks were numbered from `start`, with `start + m == index + k`. */
  lemma {:induction false} ChainedAt(sections: seq<SectionDetector.AcademicSection>, skip: SectionDetector.AcademicSection -> bool,
                                     chunker: (SectionDetector.AcademicSection, nat) -> seq<TextChunk>, index: nat, k: nat)
    returns (j: nat, start: nat, m: nat)
    requires k < |Chained(sections, skip, chunker, index)|
    ensures j < |sections| && !skip(sections[j])
    ensures m < |chunker(sections[j], start)| && start + m == index + k
    ensures Chained(sections, skip, chunker, index)[k] == chunker(sections[j], start)[m]
    decreases |sections|
  {
    if skip(sections[0]) {
      var j', s', m' := ChainedAt(sections[1..], skip, chunker, index, k);
      j, start, m := j' + 1, s', m';
    } else {
      var cs := chunker(sections[0], index);
      if k < |cs| {
        j, start, m := 0, index, k;
      } else {
        var j', s', m' := ChainedAt(sections[1..], skip, chunker, index + |cs|, k - |cs|);
        j, start, m := j' + 1, s', m';
      }
    }
  }

  /** The `m`-th chunk of one section, numbered from `start`: its index, its tags, a
      length between `MinChunkSize` and `maxSize`, and a stripped slice of the section's
      stripped content as its text. */
  lemma SectionChunkAt(section: SectionDetector.AcademicSection, start: nat, maxSize: nat, m: nat)
    returns (a: nat, b: nat)
    requires !Skipped(section)
    requires m < |SectionChunks(section, start, maxSize)|
    ensures var c := SectionChunks(section, start, maxSize)[m];
      && c.chunkIndex == start + m
      && c.section == section.name && c.sectionType == SectionDetector.Value(section.sectionType)
      && MinChunkSize <= c.characterCount == |c.content| <= maxSize
    ensures var c := SectionChunks(section, start, maxSize)[m];
      && a < b <= |Strip(section.content)|
      && c.content == Strip(Strip(section.content)[a..b]) && Trimmed(c.content)
  {
    var content := Strip(section.content);
    var sectionType := SectionDetector.Value(section.sectionType);
    if |content| <= maxSize {
      a, b := 0, |content|;
      assert content[a..b] == content;
      StripIdempotent(section.content);
      StripSpec(section.content);
    } else {
      var r := SplitChunks(content, section.name, sectionType, maxSize, start);
      a, b := SplitChunk(content, section.name, sectionType, maxSize, start, r, m);
    }
  }

  /** Every chunk of `create_chunks`: its index is its position, so indices run 0, 1, 2,
      … however many sections were skipped; it comes from a section that is not skipped,
      carries that section's tags, holds between `MinChunkSize` and `maxSize` characters
      and is a stripped slice of that section's stripped content. */
  lemma ChunkAt(sections: seq<SectionDetector.AcademicSection>, maxSize: nat, k: nat) returns (j: nat, a: nat, b: nat)
    requires k < |ChunksFrom(sections, maxSize, 0)|
    ensures var c := ChunksFrom(sections, maxSize, 0)[k];
      && c.chunkIndex == k
      && j < |sections| && !Skipped(sections[j])
      && c.section == sections[j].name && c.sectionType == SectionDetector.Value(sections[j].sectionType)
      && MinChunkSize <= c.characterCount == |c.content| <= maxSize
    ensures var c := ChunksFrom(sections, maxSize, 0)[k];
      && a < b <= |Strip(sections[j].content)|
      && c.content == Strip(Strip(sections[j].content)[a..b]) && Trimmed(c.content)
  {
    var chunker := (section, start: nat) => SectionChunks(section, start, maxSize);
    var start, m;
    j, start, m := ChainedAt(sections, Skipped, chunker, 0, k);
    assert chunker(sections[j], start) == SectionChunks(sections[j], start, maxSize);
    a, b := SectionChunkAt(sections[j], start, maxSize, m);
  }

  /** No sections, no chunks; sections that are all skipped, no chunks either. */
  lemma {:induction false} ChunksOfSkipped(sections: seq<SectionDetector.AcademicSection>, maxSize: nat, index: nat)
    requires forall i | 0 <= i < |sections| :: Skipped(sections[i])
    ensures ChunksFrom(sections, maxSize, index) == []
    decreases |sections|
  {
    if sections != [] {
      ChunksOfSkipped(sections[1..], maxSize, index);
    }
  }

  lemma ChainedSkip(before: seq<SectionDetector.AcademicSection>, section: SectionDetector.AcademicSection,
                    after: seq<SectionDetector.AcademicSection>, skip: SectionDetector.AcademicSection -> bool,
                    chunker: (SectionDetector.AcademicSection, nat) -> seq<TextChunk>)
    requires skip(section)
    ensures Chained(before + [section] + after, skip, chunker, 0) == Chained(before + after, skip, chunker, 0)
  {
    assert before + [section] + after == before + ([section] + after);
    ChainedAppend(before, [section] + after, skip, chunker, 0);
    ChainedAppend(before, after, skip, chunker, 0);
    assert ([section] + after)[1..] == after;
  }

  /** A skipped section contributes nothing: removing it changes no chunk, not even the
      numbering of the chunks after it. */
  lemma SkippedContributesNothing(before: seq<SectionDetector.AcademicSection>, section: SectionDetector.AcademicSection,
                                  after: seq<SectionDetector.AcademicSection>, maxSize: nat)
    requires Skipped(section)
    ensures ChunksFrom(before + [section] + after, maxSize, 0) == ChunksFrom(before + after, maxSize, 0)
  {
    ChainedSkip(before, section, after, Skipped, (s, start: nat) => SectionChunks(s, start, maxSize));
  }

  /** A section whose stripped content fits in one chunk yields exactly that chunk. */
  lemma SingleSection(section: SectionDetector.AcademicSection, maxSize: nat)
    requires MinChunkSize <= |Strip(section.content)| <= maxSize
    ensures ChunksFrom([section], maxSize, 0)
      == [CreateChunk(Strip(section.content), section.name, SectionDetector.Value(section.sectionType), 0)]
  {
    var chunker := (s, start: nat) => SectionChunks(s, start, maxSize);
    var cs := SectionChunks(section, 0, maxSize);
    assert !Skipped(section);
    assert [section][1..] == [];
    assert Chained([section], Skipped, chunker, 0) == cs + Chained([], Skipped, chunker, |cs|);
  }

  // ---------------------------------------------------------------- validate_chunks

  /** Least number of words a chunk must have to pass validation. */
  const MinWords := 10

  /** A chunk `validate_chunks` keeps: between `MinChunkSize` and `maxSize` characters,
      not blank, and at least `MinWords` words. */
  predicate Acceptable(c: TextChunk, maxSize: nat) {
    && !(c.characterCount > maxSize)
    && !(c.characterCount < MinChunkSize)
    && Strip(c.content) != []
    && c.wordCount >= MinWords
  }

  /** A chunk with at least `MinWords` words. */
  predicate Wordy(c: TextChunk) { c.wordCount >= MinWords }

  /** `validate_chunks` */
  function ValidateChunks(chunks: seq<TextChunk>, maxSize: nat): seq<TextChunk> {
    Seqs.Filter(chunks, c => Acceptable(c, maxSize))
  }

  /** Validation keeps exactly the acceptable chunks, in their original order. */
  lemma ValidateChunksSpec(chunks: seq<TextChunk>, maxSize: nat)
    ensures var r := ValidateChunks(chunks, maxSize);
      forall k | 0 <= k < |r| :: r[k] in chunks && Acceptable(r[k], maxSize)
    ensures forall i | 0 <= i < |chunks| :: Acceptable(chunks[i], maxSize) ==> chunks[i] in ValidateChunks(chunks, maxSize)
    ensures forall a: seq<TextChunk>, b: seq<TextChunk> {:trigger ValidateChunks(a + b, maxSize)} ::
      ValidateChunks(a + b, maxSize) == ValidateChunks(a, maxSize) + ValidateChunks(b, maxSize)
  {
    forall a: seq<TextChunk>, b: seq<TextChunk>
      ensures ValidateChunks(a + b, maxSize) == ValidateChunks(a, maxSize) + ValidateChunks(b, maxSize)
    {
      Seqs.FilterAppend(a, b, c => Acceptable(c, maxSize));
    }
  }

  /** Validation keeps chunk indices increasing when they were. */
  lemma ValidateChunksOrder(chunks: seq<TextChunk>, maxSize: nat)
    requires forall a, b | 0 <= a < b < |chunks| :: chunks[a].chunkIndex < chunks[b].chunkIndex
    ensures var r := ValidateChunks(chunks, maxSize);
      forall a, b | 0 <= a < b < |r| :: r[a].chunkIndex < r[b].chunkIndex
  {
    Seqs.FilterPairwise(chunks, c => Acceptable(c, maxSize), (x: TextChunk, y: TextChunk) => x.chunkIndex < y.chunkIndex);
  }

  /** On the output of `create_chunks`, validation only drops chunks with fewer than
      `MinWords` words: every chunk already has an acceptable size and is not blank. */
  lemma ValidateCreated(sections: seq<SectionDetector.AcademicSection>, maxSize: nat)
    ensures ValidateChunks(ChunksFrom(sections, maxSize, 0), maxSize)
      == Seqs.Filter(ChunksFrom(sections, maxSize, 0), Wordy)
  {
    var chunks := ChunksFrom(sections, maxSize, 0);
    forall k | 0 <= k < |chunks|
      ensures Acceptable(chunks[k], maxSize) == Wordy(chunks[k])
    {
      var j, a, b := ChunkAt(sections, maxSize, k);
      StripTrimmed(chunks[k].content);
    }
    Seqs.FilterCongruent(chunks, c => Acceptable(c, maxSize), Wordy);
  }

  // ---------------------------------------------------------------- optimize_chunks_for_ai

  /** The context header put in front of a chunk of section `section`. */
  function ContextPrefix(section: string): string {
    "[Section: " + section + "]\n\n"
  }

  /** `optimize_chunks_for_ai` for one chunk: the header, then the content, cut to leave
      room for the header and "..." when it would not fit in `maxSize`. */
  function OptimizeChunk(c: TextChunk, maxSize: nat): TextChunk {
    var prefix := ContextPrefix(c.section);
    var available := maxSize - |prefix|;
    var content := if |c.content| > available then prefix + (Take(c.content, available - 3) + "...")
                   else prefix + c.content;
    TextChunk(content, c.section, c.sectionType, c.chunkIndex, |content|, |Words(content)|, c.sentenceCount)
  }

  /** `optimize_chunks_for_ai` */
  function OptimizeChunks(chunks: seq<TextChunk>, maxSize: nat): seq<TextChunk> {
    Seqs.Map(chunks, c => OptimizeChunk(c, maxSize))
  }

  /** What the header pass keeps and what it makes: same index, tags and sentence count;
      the header first; the content whole when it fits, otherwise cut and ending in
      "..." at exactly `maxSize` characters when the header leaves room for "...". */
  lemma OptimizeChunkSpec(c: TextChunk, maxSize: nat)
    ensures var o := OptimizeChunk(c, maxSize);
      && o.section == c.section && o.sectionType == c.sectionType
      && o.chunkIndex == c.chunkIndex && o.sentenceCount == c.sentenceCount
      && o.characterCount == |o.content|
      && StartsWith(o.content, ContextPrefix(c.section))
    ensures var o := OptimizeChunk(c, maxSize);
      |ContextPrefix(c.section)| + |c.content| <= maxSize ==> o.content == ContextPrefix(c.section) + c.content
    ensures var o := OptimizeChunk(c, maxSize);
      |ContextPrefix(c.section)| + |c.content| > maxSize ==>
        && EndsWith(o.content, "...")
        && o.content[..|o.content| - 3] == ContextPrefix(c.section) + Take(c.content, maxSize - |ContextPrefix(c.section)| - 3)
    ensures var o := OptimizeChunk(c, maxSize);
      |ContextPrefix(c.section)| + 3 <= maxSize ==> o.characterCount <= maxSize
  {
    var prefix := ContextPrefix(c.section);
    var available := maxSize - |prefix|;
    var o := OptimizeChunk(c, maxSize);
    if |c.content| > available {
      var cut := Take(c.content, available - 3);
      assert o.content == prefix + cut + "...";
      assert o.content[..|o.content| - 3] == prefix + cut;
    }
  }

  /** The header pass keeps the number and the order of the chunks. */
  lemma OptimizeChunksSpec(chunks: seq<TextChunk>, maxSize: nat)
    ensures |OptimizeChunks(chunks, maxSize)| == |chunks|
    ensures forall k | 0 <= k < |chunks| :: OptimizeChunks(chunks, maxSize)[k] == OptimizeChunk(chunks[k], maxSize)
  {
  }

  // ---------------------------------------------------------------- get_chunk_statistics

  /** Chunks under this many characters are small; medium ones are under `LargeFrom`. */
  const MediumFrom := 3000
  const LargeFrom := 7000

  /** `get_chunk_statistics`: all zeros for no chunks, else the totals, the integer
      averages, the set of section names, the size classes and the extreme sizes. */
  datatype ChunkStatistics =
    | NoChunks
    | Statistics(totalChunks: nat, totalCharacters: nat, totalWords: nat,
                 averageChunkSize: nat, averageWordsPerChunk: nat,
                 sectionsRepresented: nat, sectionNames: set<string>,
                 small: nat, medium: nat, large: nat,
                 maxChunkSize: nat, minChunkSize: nat)

  function Sizes(chunks: seq<TextChunk>): seq<nat> {
    Seqs.Map(chunks, (c: TextChunk) => c.characterCount)
  }

  function WordCounts(chunks: seq<TextChunk>): seq<nat> {
    Seqs.Map(chunks, (c: TextChunk) => c.wordCount)
  }

  /** `set(chunk.section for chunk in chunks)` */
  function SectionNames(chunks: seq<TextChunk>): set<string> {
    set c | c in chunks :: c.section
  }

  predicate Small(c: TextChunk) { c.characterCount < MediumFrom }
  predicate Medium(c: TextChunk) { MediumFrom <= c.characterCount < LargeFrom }
  predicate Large(c: TextChunk) { c.characterCount >= LargeFrom }

  function GetChunkStatistics(chunks: seq<TextChunk>): ChunkStatistics {
    if chunks == [] then NoChunks
    else
      var sizes := Sizes(chunks);
      var totalChars := Seqs.Sum(sizes);
      var totalWords := Seqs.Sum(WordCounts(chunks));
      var sections := SectionNames(chunks);
      Statistics(|chunks|, totalChars, totalWords, totalChars / |chunks|, totalWords / |chunks|,
        |sections|, sections,
        |Seqs.Filter(chunks, Small)|, |Seqs.Filter(chunks, Medium)|, |Seqs.Filter(chunks, Large)|,
        Seqs.MaxOf(sizes), Seqs.MinOf(sizes))
  }

  /** The three size classes count every chunk exactly once. */
  lemma StatisticsClasses(chunks: seq<TextChunk>)
    requires chunks != []
    ensures var st := GetChunkStatistics(chunks);
      st.Statistics? && st.totalChunks == |chunks| && st.small + st.medium + st.large == |chunks|
  {
    Seqs.FilterPartition(chunks, Small, Medium, Large);
  }

  /** The extreme sizes are sizes of actual chunks and bound all the others; the average
      size lies between them. */
  lemma StatisticsSizes(chunks: seq<TextChunk>)
    requires chunks != []
    ensures var st := GetChunkStatistics(chunks);
      && (forall i | 0 <= i < |chunks| :: st.minChunkSize <= chunks[i].characterCount <= st.maxChunkSize)
      && (exists i | 0 <= i < |chunks| :: chunks[i].characterCount == st.maxChunkSize)
      && (exists i | 0 <= i < |chunks| :: chunks[i].characterCount == st.minChunkSize)
      && st.minChunkSize <= st.averageChunkSize <= st.maxChunkSize
  {
    var st := GetChunkStatistics(chunks);
    var sizes := Sizes(chunks);
    assert st.maxChunkSize == Seqs.MaxOf(sizes) && st.minChunkSize == Seqs.MinOf(sizes);
    assert st.averageChunkSize == Seqs.Sum(sizes) / |chunks|;
    SizesFacts(chunks, sizes);
  }

  lemma SizesFacts(chunks: seq<TextChunk>, sizes: seq<nat>)
    requires chunks != [] && sizes == Sizes(chunks)
    ensures forall i | 0 <= i < |chunks| :: Seqs.MinOf(sizes) <= chunks[i].characterCount <= Seqs.MaxOf(sizes)
    ensures exists i | 0 <= i < |chunks| :: chunks[i].characterCount == Seqs.MaxOf(sizes)
    ensures exists i | 0 <= i < |chunks| :: chunks[i].characterCount == Seqs.MinOf(sizes)
    ensures Seqs.MinOf(sizes) <= Seqs.Sum(sizes) / |chunks| <= Seqs.MaxOf(sizes)
  {
    assert forall i | 0 <= i < |chunks| :: sizes[i] == chunks[i].characterCount;
    var hi :| 0 <= hi < |sizes| && sizes[hi] == Seqs.MaxOf(sizes);
    var lo :| 0 <= lo < |sizes| && sizes[lo] == Seqs.MinOf(sizes);
    assert chunks[hi].characterCount == Seqs.MaxOf(sizes) && chunks[lo].characterCount == Seqs.MinOf(sizes);
    Seqs.SumBounds(sizes, Seqs.MinOf(sizes), Seqs.MaxOf(sizes));
    DivBetween(Seqs.Sum(sizes), |chunks|, Seqs.MinOf(sizes), Seqs.MaxOf(sizes));
  }

  /** The section names are exactly the sections of the chunks; there is at least one. */
  lemma StatisticsSections(chunks: seq<TextChunk>)
    requires chunks != []
    ensures var st := GetChunkStatistics(chunks);
      && 1 <= st.sectionsRepresented == |st.sectionNames|
      && (forall name :: name in st.sectionNames <==> exists i | 0 <= i < |chunks| :: chunks[i].section == name)
  {
    var names := SectionNames(chunks);
    assert chunks[0].section in names;
    forall name
      ensures name in names <==> exists i | 0 <= i < |chunks| :: chunks[i].section == name
    {
      if name in names {
        var c :| c in chunks && c.section == name;
        var i :| 0 <= i < |chunks| && chunks[i] == c;
      }
    }
  }

  /** Integer division of a total between `n * lo` and `n * hi` by `n` stays in [lo, hi]. */
  lemma DivBetween(total: nat, n: nat, lo: nat, hi: nat)
    requires n > 0 && n * lo <= total <= n * hi
    ensures lo <= total / n <= hi
  {
    var q := total / n;
    assert total == n * q + total % n && total % n < n;
    assert n * lo < n * (q + 1);
    MulCancel(n, lo, q + 1);
    MulCancel(n, q, hi + 1);
  }

  /** Multiplying by a positive number keeps a strict order, so it can be cancelled. */
  lemma MulCancel(n: nat, a: nat, b: nat)
    requires n > 0 && n * a < n * b
    ensures a < b
  {
  }
}
