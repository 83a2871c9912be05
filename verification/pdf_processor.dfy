/** The pure parts of the PDF processor (backend/services/pdf_processor.py): the signature
    check on uploaded bytes, the size guard that runs before any PDF library is called, and
    the cleaning chain applied to the extracted text, and the order in which the two PDF
    libraries are tried.  Each library is a parameter: a reader that yields the text of each
    page or the message of the exception it raised. */
module PdfProcessor {
  import opened Wrappers
  import opened Text
  import Seqs
  import Whitespace

  type byte = b: int | 0 <= b < 0x100

  /** `max_file_size`: 50 MiB. */
  const MaxFileSize: nat := 50 * 1024 * 1024

  /** The magic number every PDF file starts with: `%PDF-`. */
  const PdfSignature: seq<byte> := [0x25, 0x50, 0x44, 0x46, 0x2D]

  const EmptyFileError := "Empty PDF file"
  const NoTextError := "No readable text found in PDF"

  function TooLargeError(size: nat): string {
    "PDF file too large: " + NatToString(size) + " bytes"
  }

  /** `content.startswith(prefix)` on bytes. */
  predicate HasPrefix(content: seq<byte>, prefix: seq<byte>) {
    |prefix| <= |content| && content[..|prefix|] == prefix
  }

  /** The bytes of a string whose characters all fit in one byte (a `b'...'` literal). */
  function Latin1(s: string): (r: seq<byte>)
    requires forall i | 0 <= i < |s| :: s[i] as int < 0x100
    ensures |r| == |s|
  {
    seq(|s|, i requires 0 <= i < |s| => s[i] as int)
  }

  // ---------------------------------------------------------------- validate_pdf_content

  /** `validate_pdf_content`: content shorter than four bytes is refused outright, anything
      else must start with the PDF signature.  Since the signature is five bytes long, the
      length guard never decides anything the prefix test would not. */
  function ValidatePdfContent(content: seq<byte>): (ok: bool)
    ensures ok <==> HasPrefix(content, PdfSignature)
    ensures |content| < 4 ==> !ok
  {
    if |content| == 0 || |content| < 4 then false
    else HasPrefix(content, PdfSignature)
  }

  /** The signature check on the inputs the backend's smoke test uses. */
  lemma ValidateExamples()
    ensures ValidatePdfContent(Latin1("%PDF-1.4\n%some content"))
    ensures !ValidatePdfContent(Latin1("not a pdf"))
    ensures !ValidatePdfContent([])
  {
    var good := Latin1("%PDF-1.4\n%some content");
    assert good[..5] == PdfSignature;
    var bad := Latin1("not a pdf");
    assert bad[0] != PdfSignature[0];
  }

  // ---------------------------------------------------------------- _clean_text, step by step

  /** What `re.sub(r'\s+', ' ', ·)` puts in place of a whitespace run. */
  function OneSpace(run: string): string { " " }

  /** `re.sub(r'\s+', ' ', ·)`: every maximal whitespace run becomes one space. */
  function CollapseWhitespace(s: string): string {
    Whitespace.MapSpaceRuns(s, OneSpace)
  }

  /** The class `[\x00-\x08\x0b\x0c\x0e-\x1f\x7f-\xff]`. */
  predicate IsControl(c: char) {
    c <= '\U{08}' || c == '\U{0B}' || c == '\U{0C}' || ('\U{0E}' <= c <= '\U{1F}') || ('\U{7F}' <= c <= '\U{FF}')
  }

  predicate NotControl(c: char) { !IsControl(c) }

  /** `re.sub(r'[\x00-\x08\x0b\x0c\x0e-\x1f\x7f-\xff]', '', ·)`: control characters and the
      whole upper half of Latin-1 are deleted. */
  function DropControls(s: string): string {
    Seqs.Filter(s, NotControl)
  }

  predicate IsAscii(c: char) { c <= '\U{7F}' }

  /** Length of the leading run of non-ASCII characters. */
  function NonAsciiLen(s: string): (n: nat)
    ensures n <= |s|
    ensures forall i | 0 <= i < n :: !IsAscii(s[i])
    ensures n < |s| ==> IsAscii(s[n])
  {
    if s != [] && !IsAscii(s[0]) then 1 + NonAsciiLen(s[1..]) else 0
  }

  /** `re.sub(r'[^\x00-\x7F]+', ' ', ·)`: every maximal run of non-ASCII characters becomes
      one space; every character of the result is a space or an ASCII character of `s`. */
  function ReplaceNonAscii(s: string): (r: string)
    ensures forall i | 0 <= i < |r| :: r[i] == ' ' || (IsAscii(r[i]) && r[i] in s)
    decreases |s|
  {
    if s == [] then []
    else if IsAscii(s[0]) then [s[0]] + ReplaceNonAscii(s[1..])
    else " " + ReplaceNonAscii(s[NonAsciiLen(s)..])
  }

  /** The three character-class substitutions that open `_clean_text`. */
  function Normalize(text: string): string {
    ReplaceNonAscii(DropControls(CollapseWhitespace(text)))
  }

  /** `re.sub(r'\n\s*\n\s*\n+', '\n\n', ·)`: a whitespace run with three or more line
      breaks keeps a single blank line. */
  function CollapseParagraphs(s: string): string {
    Whitespace.MapSpaceRuns(s, Whitespace.CollapseBreaks)
  }

  /** `re.sub(r'[ \t]+\n', '\n', ·)`: a block of spaces and tabs right before a line break
      is deleted. */
  function TrimBeforeBreaks(s: string): string
    decreases |s|
  {
    if s == [] then []
    else if IsBlank(s[0]) then
      var n := Whitespace.BlankLen(s);
      (if n < |s| && s[n] == '\n' then [] else s[..n]) + TrimBeforeBreaks(s[n..])
    else [s[0]] + TrimBeforeBreaks(s[1..])
  }

  /** `re.sub(r'\n[ \t]+', '\n', ·)`: a block of spaces and tabs right after a line break
      is deleted. */
  function TrimAfterBreaks(s: string): string
    decreases |s|
  {
    if s == [] then []
    else if s[0] == '\n' then "\n" + TrimAfterBreaks(s[1 + Whitespace.BlankLen(s[1..])..])
    else [s[0]] + TrimAfterBreaks(s[1..])
  }

  /** The three line-break rules, in the order they are applied. */
  function NormalizeBreaks(s: string): string {
    TrimAfterBreaks(TrimBeforeBreaks(CollapseParagraphs(s)))
  }

  /** `^\d+$`: a bare page number. */
  predicate AllDigits(s: string) {
    s != [] && forall i | 0 <= i < |s| :: IsDigit(s[i])
  }

  /** `^Page\s+\d+$` matched ignoring case: the word "page", whitespace, then digits. */
  predicate IsPageLabel(s: string) {
    |s| >= 4 && Lower(s[..4]) == "page" &&
    var gap := LeadLen(s[4..]);
    gap > 0 && AllDigits(s[4 + gap..])
  }

  /** A stripped line that survives the header/footer filter: not a page number, not a
      "Page N" label, and at least three characters long. */
  predicate KeepLine(line: string) {
    !AllDigits(line) && !IsPageLabel(line) && |line| >= 3
  }

  /** The line loop of `_clean_text`: strip every line and keep those `KeepLine` accepts. */
  function CleanLines(lines: seq<string>): seq<string> {
    Seqs.Filter(Seqs.Map(lines, Strip), KeepLine)
  }

  /** `_clean_text` */
  function CleanText(text: string): string {
    if text == [] then []
    else
      var lines := Split(NormalizeBreaks(Normalize(text)), '\n');
      Strip(CollapseParagraphs(Join(CleanLines(lines), "\n")))
  }

  // ---------------------------------------------------------------- characters of the cleaned text

  /** A character that survives `_clean_text` unchanged: printable ASCII other than the space. */
  predicate IsVisible(c: char) { '!' <= c <= '~' }

  predicate IsPrintable(c: char) { ' ' <= c <= '~' }

  /** The visible characters of `s`, in order. */
  function VisibleOf(s: string): string {
    Seqs.Filter(s, IsVisible)
  }

  /** The only whitespace character left is the plain space. */
  predicate SpaceIsBlank(c: char) { IsSpace(c) ==> c == ' ' }

  lemma OneSpaceKeepsRuns()
    ensures Whitespace.KeepsRuns(OneSpace)
  {
    assert AllSpace(" ");
  }

  /** After the whitespace collapse the only whitespace character is the space. */
  lemma CollapseWhitespaceBlank(s: string)
    ensures forall i | 0 <= i < |CollapseWhitespace(s)| :: SpaceIsBlank(CollapseWhitespace(s)[i])
  {
    Whitespace.MapRunsChars(s, OneSpace, SpaceIsBlank);
  }

  /** Every character left by the three substitutions is printable ASCII, so in particular
      no line break is left. */
  lemma NormalizePrintable(text: string)
    ensures forall i | 0 <= i < |Normalize(text)| :: IsPrintable(Normalize(text)[i])
    ensures '\n' !in Normalize(text)
  {
    var a := CollapseWhitespace(text);
    var b := DropControls(a);
    var r := ReplaceNonAscii(b);
    CollapseWhitespaceBlank(text);
    assert forall i | 0 <= i < |b| :: SpaceIsBlank(b[i]) && NotControl(b[i]);
    forall i | 0 <= i < |r| ensures IsPrintable(r[i]) {
      if r[i] != ' ' {
        assert IsAscii(r[i]) && r[i] in b;
      }
    }
  }

  lemma VisibleNotSpace()
    ensures forall c :: IsVisible(c) ==> Whitespace.NotSpace(c)
  {
  }

  /** Rewriting whitespace runs into whitespace keeps the visible characters. */
  lemma VisibleOfNonSpace(s: string)
    ensures VisibleOf(s) == Seqs.Filter(Whitespace.NonSpace(s), IsVisible)
  {
    VisibleNotSpace();
    Seqs.FilterFilterWeaker(s, Whitespace.NotSpace, IsVisible);
  }

  lemma VisibleOfCollapse(s: string)
    ensures VisibleOf(CollapseWhitespace(s)) == VisibleOf(s)
  {
    OneSpaceKeepsRuns();
    Whitespace.MapRunsNonSpace(s, OneSpace);
    VisibleOfNonSpace(s);
    VisibleOfNonSpace(CollapseWhitespace(s));
  }

  lemma VisibleOfDropControls(s: string)
    ensures VisibleOf(DropControls(s)) == VisibleOf(s)
  {
    Seqs.FilterFilterWeaker(s, NotControl, IsVisible);
  }

  lemma {:induction false} VisibleOfReplace(s: string)
    ensures VisibleOf(ReplaceNonAscii(s)) == VisibleOf(s)
    decreases |s|
  {
    if s == [] {
    } else if IsAscii(s[0]) {
      VisibleOfReplace(s[1..]);
      Seqs.FilterAppend([s[0]], ReplaceNonAscii(s[1..]), IsVisible);
      assert VisibleOf([s[0]]) == (if IsVisible(s[0]) then [s[0]] else []) + VisibleOf([]);
    } else {
      var n := NonAsciiLen(s);
      VisibleOfReplace(s[n..]);
      Seqs.FilterAppend(" ", ReplaceNonAscii(s[n..]), IsVisible);
      assert VisibleOf(" ") == [];
      assert s == s[..n] + s[n..];
      Seqs.FilterAppend(s[..n], s[n..], IsVisible);
      Seqs.FilterNone(s[..n], IsVisible);
    }
  }

  lemma VisibleOfStrip(s: string)
    ensures VisibleOf(Strip(s)) == VisibleOf(s)
  {
    Whitespace.StripNonSpace(s);
    VisibleOfNonSpace(s);
    VisibleOfNonSpace(Strip(s));
  }

  /** The substitutions keep every visible character of the input, in order. */
  lemma VisibleOfNormalize(text: string)
    ensures VisibleOf(Normalize(text)) == VisibleOf(text)
  {
    var a := CollapseWhitespace(text);
    VisibleOfCollapse(text);
    VisibleOfDropControls(a);
    VisibleOfReplace(DropControls(a));
  }

  // ---------------------------------------------------------------- the line-break rules are idle

  lemma CollapseBreaksIdle()
    ensures forall w :: w != [] && AllSpace(w) && '\n' !in w ==> Whitespace.CollapseBreaks(w) == w
  {
    forall w | w != [] && AllSpace(w) && '\n' !in w ensures Whitespace.CollapseBreaks(w) == w {
      CountAbsent(w, '\n');
    }
  }

  /** Without a line break the paragraph rule has nothing to match. */
  lemma CollapseParagraphsIdle(s: string)
    requires '\n' !in s
    ensures CollapseParagraphs(s) == s
  {
    CollapseBreaksIdle();
    Whitespace.MapRunsIdentity(s, Whitespace.CollapseBreaks);
  }

  /** Without a line break there is no blank block before one. */
  lemma {:induction false} TrimBeforeBreaksIdle(s: string)
    requires '\n' !in s
    ensures TrimBeforeBreaks(s) == s
    decreases |s|
  {
    if s == [] {
    } else if IsBlank(s[0]) {
      var n := Whitespace.BlankLen(s);
      assert '\n' !in s[n..];
      TrimBeforeBreaksIdle(s[n..]);
      TrimBlankIdle(s, n);
    } else {
      assert '\n' !in s[1..];
      TrimBeforeBreaksIdle(s[1..]);
      assert [s[0]] + s[1..] == s;
    }
  }

  lemma TrimBlankIdle(s: string, n: nat)
    requires s != [] && IsBlank(s[0]) && n == Whitespace.BlankLen(s) && '\n' !in s
    requires TrimBeforeBreaks(s[n..]) == s[n..]
    ensures TrimBeforeBreaks(s) == s
  {
    assert !(n < |s| && s[n] == '\n') by {
      if n < |s| {
        assert s[n] in s;
      }
    }
    Seqs.SplitAt(s, n);
  }

  /** Without a line break there is no blank block after one. */
  lemma {:induction false} TrimAfterBreaksIdle(s: string)
    requires '\n' !in s
    ensures TrimAfterBreaks(s) == s
    decreases |s|
  {
    if s != [] {
      assert '\n' !in s[1..];
      TrimAfterBreaksIdle(s[1..]);
      assert [s[0]] + s[1..] == s;
    }
  }

  lemma NormalizeBreaksIdle(s: string)
    requires '\n' !in s
    ensures NormalizeBreaks(s) == s
  {
    CollapseParagraphsIdle(s);
    TrimBeforeBreaksIdle(s);
    TrimAfterBreaksIdle(s);
  }

  /** A single line goes through the line loop alone: kept stripped, or dropped. */
  lemma CleanOneLine(s: string)
    ensures CleanLines([s]) == if KeepLine(Strip(s)) then [Strip(s)] else []
  {
    assert Seqs.Map([s], Strip) == [Strip(s)];
  }

  lemma StripNoBreak(s: string)
    requires '\n' !in s
    ensures '\n' !in Strip(s)
  {
    StripSpec(s);
  }

  /** What `_clean_text` comes down to: since every whitespace run was collapsed to one space
      before the line rules run, the text is a single line, which is stripped and either
      kept whole or dropped by the page-number and length filter. */
  lemma CleanTextOneLine(text: string)
    ensures CleanText(text) == if KeepLine(Strip(Normalize(text))) then Strip(Normalize(text)) else []
  {
    if text != [] {
      var t := Normalize(text);
      NormalizePrintable(text);
      NormalizeBreaksIdle(t);
      SplitNoSep(t, '\n');
      CleanOneLine(t);
      var line := Strip(t);
      if KeepLine(line) {
        StripNoBreak(t);
        CollapseParagraphsIdle(line);
        StripIdempotent(t);
      } else {
        assert Join([], "\n") == [];
        CollapseParagraphsIdle([]);
      }
    }
  }

  /** The normalised text, stripped: one printable line with no whitespace at either end. */
  lemma NormalizedLine(text: string)
    ensures Trimmed(Strip(Normalize(text)))
    ensures forall i | 0 <= i < |Strip(Normalize(text))| :: IsPrintable(Strip(Normalize(text))[i])
    ensures '\n' !in Strip(Normalize(text))
  {
    StripSpec(Normalize(text));
    NormalizePrintable(text);
    StripPrintable(Normalize(text));
  }

  /** The guarantees of `_clean_text`: the empty text stays empty; the result holds no line
      break, is printable ASCII, has no whitespace at either end, and is empty exactly when
      the normalised text, stripped, is a page number, a "Page N" label or under three
      characters long. */
  lemma CleanTextSpec(text: string)
    ensures text == [] ==> CleanText(text) == []
    ensures '\n' !in CleanText(text)
    ensures forall i | 0 <= i < |CleanText(text)| :: IsPrintable(CleanText(text)[i])
    ensures Trimmed(CleanText(text))
    ensures CleanText(text) == [] <==> !KeepLine(Strip(Normalize(text)))
    ensures CleanText(text) != [] ==> |CleanText(text)| >= 3 && KeepLine(CleanText(text))
  {
    NormalizedLine(text);
    CleanTextOneLine(text);
  }

  /** Stripping keeps a printable text printable. */
  lemma StripPrintable(t: string)
    requires forall i | 0 <= i < |t| :: IsPrintable(t[i])
    ensures forall i | 0 <= i < |Strip(t)| :: IsPrintable(Strip(t)[i])
  {
    StripSpec(t);
    forall i | 0 <= i < |Strip(t)| ensures IsPrintable(Strip(t)[i]) {
      assert Strip(t)[i] == t[LeadLen(t) + i];
    }
  }

  /** A non-empty cleaned text holds the visible characters of the raw text, all of them and
      in their order; only spacing differs. */
  lemma CleanTextVisible(text: string)
    requires CleanText(text) != []
    ensures VisibleOf(CleanText(text)) == VisibleOf(text)
  {
    CleanTextOneLine(text);
    VisibleOfStrip(Normalize(text));
    VisibleOfNormalize(text);
  }

  /** Text without whitespace, controls or non-ASCII characters is untouched by the
      substitutions. */
  lemma {:induction false} NormalizeVisible(s: string)
    requires forall i | 0 <= i < |s| :: IsVisible(s[i])
    ensures CollapseWhitespace(s) == s && DropControls(s) == s && ReplaceNonAscii(s) == s
    decreases |s|
  {
    if s != [] {
      NormalizeVisible(s[1..]);
      assert [s[0]] + s[1..] == s;
    }
  }

  /** A word of visible characters comes out of `_clean_text` unchanged, unless it is a bare
      page number or shorter than three characters, in which case it disappears. */
  lemma CleanTextWord(text: string)
    requires forall i | 0 <= i < |text| :: IsVisible(text[i])
    ensures CleanText(text) == if KeepLine(text) then text else []
  {
    assert Normalize(text) == text by {
      NormalizeVisible(text);
    }
    assert Strip(text) == text by {
      StripTrimmed(text);
    }
    CleanTextOneLine(text);
  }

  // ---------------------------------------------------------------- extract_text

  /** A page whose text is not all whitespace. */
  predicate HasText(page: string) { Strip(page) != [] }

  /** The pages with text, joined by a blank line. */
  function CombinePages(pages: seq<string>): string {
    Join(Seqs.Filter(pages, HasText), "\n\n")
  }

  /** The combined text is empty exactly when no page has text. */
  lemma CombinePagesEmpty(pages: seq<string>)
    ensures CombinePages(pages) == [] <==> forall k | 0 <= k < |pages| :: !HasText(pages[k])
  {
    var kept := Seqs.Filter(pages, HasText);
    if kept != [] {
      assert HasText(kept[0]);
      assert kept[0] != [] by {
        assert Strip([]) == [];
      }
      assert CombinePages(pages) != [] by {
        if |kept| > 1 {
          assert Join(kept, "\n\n") == kept[0] + "\n\n" + Join(kept[1..], "\n\n");
        }
      }
    }
  }

  /** A PDF library opened on the uploaded bytes: the text of every page (blank pages
      included), or the message of the exception it raised, such as an unreadable or
      password-protected file. */
  type Reader = seq<byte> -> Result<seq<string>, string>

  /** `ExtractedText` without its metadata. */
  datatype Extracted = Extracted(content: string, pageCount: nat, extractionMethod: string)

  const PyMuPdfMethod := "pymupdf"
  const PdfplumberMethod := "pdfplumber"
  const NoPagesError := "PDF has no pages"
  const ExtractionFailedPrefix := "PDF text extraction failed: "

  /** The `RuntimeError` raised when both libraries failed. */
  function BothFailedError(e: string, e2: string): string {
    ExtractionFailedPrefix + "PyMuPDF error: " + e + ", pdfplumber error: " + e2
  }

  /** The `RuntimeError` raised when pdfplumber, used alone, failed. */
  function PdfplumberFailedError(e: string): string {
    ExtractionFailedPrefix + "pdfplumber error: " + e
  }

  /** What one library makes of the pages it read: the pages with text are combined and
      cleaned, and a document with no readable text is refused. */
  function CleanPages(pages: seq<string>, via: string): (r: Result<Extracted, string>)
    ensures r.Failure? <==> Strip(CleanText(CombinePages(pages))) == []
    ensures r.Failure? ==> r.error == NoTextError
    ensures r.Success? ==> r.value.extractionMethod == via && r.value.pageCount == |pages|
  {
    var cleaned := CleanText(CombinePages(pages));
    if Strip(cleaned) == [] then Failure(NoTextError) else Success(Extracted(cleaned, |pages|, via))
  }

  /** `_extract_with_pymupdf`: the reader's exception (the encryption check included) is
      passed on; otherwise the pages are cleaned. */
  function ExtractWithPyMuPdf(content: seq<byte>, read: Reader): (r: Result<Extracted, string>)
    ensures read(content).Failure? ==> r == Failure(read(content).error)
    ensures read(content).Success? ==> r == CleanPages(read(content).value, PyMuPdfMethod)
  {
    match read(content)
    case Failure(e) => Failure(e)
    case Success(pages) => CleanPages(pages, PyMuPdfMethod)
  }

  /** `_extract_with_pdfplumber`: as PyMuPDF, but a document without pages is refused first. */
  function ExtractWithPdfplumber(content: seq<byte>, read: Reader): (r: Result<Extracted, string>)
    ensures read(content).Failure? ==> r == Failure(read(content).error)
    ensures read(content) == Success([]) ==> r == Failure(NoPagesError)
    ensures read(content).Success? && read(content).value != [] ==> r == CleanPages(read(content).value, PdfplumberMethod)
  {
    match read(content)
    case Failure(e) => Failure(e)
    case Success(pages) => if pages == [] then Failure(NoPagesError) else CleanPages(pages, PdfplumberMethod)
  }

  /** `extract_text`: the empty file and files over 50 MiB are refused before any library
      sees them.  PyMuPDF (`pymupdf`, `None` when it is not installed) is tried first and
      pdfplumber after it fails; when every library tried has failed, their messages are
      wrapped in one error. */
  function ExtractText(content: seq<byte>, pymupdf: Option<Reader>, pdfplumber: Reader): (r: Result<Extracted, string>)
    ensures |content| == 0 ==> r == Failure(EmptyFileError)
    ensures |content| > MaxFileSize ==> r == Failure(TooLargeError(|content|))
    ensures r.Success? ==> 0 < |content| <= MaxFileSize && r.value.content != []
  {
    if |content| == 0 then Failure(EmptyFileError)
    else if |content| > MaxFileSize then Failure(TooLargeError(|content|))
    else
      match pymupdf
      case Some(mu) =>
        (match ExtractWithPyMuPdf(content, mu)
         case Success(x) => Success(x)
         case Failure(e) =>
           match ExtractWithPdfplumber(content, pdfplumber)
           case Success(x) => Success(x)
           case Failure(e2) => Failure(BothFailedError(e, e2)))
      case None =>
        match ExtractWithPdfplumber(content, pdfplumber)
        case Success(x) => Success(x)
        case Failure(e) => Failure(PdfplumberFailedError(e))
  }

  /** The size guard runs before the libraries: an empty or oversized file gets the same
      answer whatever the libraries would have done with it. */
  lemma SizeGuardFirst(content: seq<byte>, pymupdf: Option<Reader>, pdfplumber: Reader,
                       pymupdf': Option<Reader>, pdfplumber': Reader)
    requires |content| == 0 || |content| > MaxFileSize
    ensures ExtractText(content, pymupdf, pdfplumber) == ExtractText(content, pymupdf', pdfplumber')
  {
  }

  /** The library order: PyMuPDF's result is taken when it succeeds; otherwise pdfplumber's
      success is taken, and when both fail the error names both messages in that order. */
  lemma ExtractFallback(content: seq<byte>, mu: Reader, pdfplumber: Reader)
    requires 0 < |content| <= MaxFileSize
    ensures var r := ExtractText(content, Some(mu), pdfplumber);
      var first := ExtractWithPyMuPdf(content, mu);
      var second := ExtractWithPdfplumber(content, pdfplumber);
      && (first.Success? ==> r == first)
      && (first.Failure? && second.Success? ==> r == second)
      && (first.Failure? && second.Failure? ==> r == Failure(BothFailedError(first.error, second.error)))
  {
  }

  /** Without PyMuPDF, pdfplumber alone decides, and its error is wrapped. */
  lemma ExtractWithoutPyMuPdf(content: seq<byte>, pdfplumber: Reader)
    requires 0 < |content| <= MaxFileSize
    ensures var r := ExtractText(content, None, pdfplumber);
      var only := ExtractWithPdfplumber(content, pdfplumber);
      && (only.Success? ==> r == only)
      && (only.Failure? ==> r == Failure(PdfplumberFailedError(only.error)))
  {
  }

  /** Once the size guard has passed, every failure is the wrapped extraction error. */
  lemma ExtractFailureWrapped(content: seq<byte>, pymupdf: Option<Reader>, pdfplumber: Reader)
    requires 0 < |content| <= MaxFileSize
    requires ExtractText(content, pymupdf, pdfplumber).Failure?
    ensures StartsWith(ExtractText(content, pymupdf, pdfplumber).error, ExtractionFailedPrefix)
  {
    var r := ExtractText(content, pymupdf, pdfplumber);
    var rest: string;
    if pymupdf.Some? {
      var e := ExtractWithPyMuPdf(content, pymupdf.value).error;
      var e2 := ExtractWithPdfplumber(content, pdfplumber).error;
      rest := "PyMuPDF error: " + e + ", pdfplumber error: " + e2;
    } else {
      rest := "pdfplumber error: " + ExtractWithPdfplumber(content, pdfplumber).error;
    }
    assert r.error == ExtractionFailedPrefix + rest;
    assert (ExtractionFailedPrefix + rest)[..|ExtractionFailedPrefix|] == ExtractionFailedPrefix;
  }

  /** A library's text is what `_clean_text` makes of its pages with text, and so carries
      its guarantees: no line break, printable ASCII, trimmed, at least three characters. */
  lemma CleanPagesSpec(pages: seq<string>, via: string)
    requires CleanPages(pages, via).Success?
    ensures var text := CleanPages(pages, via).value.content;
      && text == CleanText(CombinePages(pages))
      && '\n' !in text && Trimmed(text) && |text| >= 3
      && forall i | 0 <= i < |text| :: IsPrintable(text[i])
  {
    CleanTextSpec(CombinePages(pages));
    StripTrimmed(CleanText(CombinePages(pages)));
  }

  /** Extracted text comes from the library named by the extraction method: PyMuPDF only when
      it is installed, and `pages` are the pages that library read.  The text is what
      `_clean_text` makes of them (no line break, printable ASCII, trimmed, at least three
      characters), and the page count is theirs, blank pages included. */
  lemma ExtractTextSpec(content: seq<byte>, pymupdf: Option<Reader>, pdfplumber: Reader) returns (pages: seq<string>)
    requires ExtractText(content, pymupdf, pdfplumber).Success?
    ensures var x := ExtractText(content, pymupdf, pdfplumber).value;
      && (x.extractionMethod == PyMuPdfMethod ==> pymupdf.Some? && pymupdf.value(content) == Success(pages))
      && (x.extractionMethod == PdfplumberMethod ==> pdfplumber(content) == Success(pages))
      && (x.extractionMethod == PyMuPdfMethod || x.extractionMethod == PdfplumberMethod)
    ensures var x := ExtractText(content, pymupdf, pdfplumber).value;
      && x.content == CleanText(CombinePages(pages)) && x.pageCount == |pages|
      && '\n' !in x.content && Trimmed(x.content) && |x.content| >= 3
      && forall i | 0 <= i < |x.content| :: IsPrintable(x.content[i])
  {
    assert PyMuPdfMethod != PdfplumberMethod;
    if pymupdf.Some? && ExtractWithPyMuPdf(content, pymupdf.value).Success? {
      pages := pymupdf.value(content).value;
      assert ExtractText(content, pymupdf, pdfplumber) == CleanPages(pages, PyMuPdfMethod);
      CleanPagesSpec(pages, PyMuPdfMethod);
    } else {
      pages := pdfplumber(content).value;
      assert ExtractText(content, pymupdf, pdfplumber) == CleanPages(pages, PdfplumberMethod);
      CleanPagesSpec(pages, PdfplumberMethod);
    }
  }

  /** A library that reads only blank pages reports that the document has no readable text
      (pdfplumber reports a document without pages first). */
  lemma BlankPagesRefused(pages: seq<string>, via: string)
    requires forall k | 0 <= k < |pages| :: !HasText(pages[k])
    ensures CleanPages(pages, via) == Failure(NoTextError)
  {
    CombinePagesEmpty(pages);
  }

  /** A document whose pages are all blank is refused by every library tried, and the
      error carries "No readable text found in PDF" once per library (pdfplumber says
      "PDF has no pages" instead when it finds none). */
  lemma ExtractBlankPages(content: seq<byte>, pymupdf: Option<Reader>, pdfplumber: Reader)
    requires 0 < |content| <= MaxFileSize
    requires pymupdf.Some? ==>
      pymupdf.value(content).Success? && forall k | 0 <= k < |pymupdf.value(content).value| :: !HasText(pymupdf.value(content).value[k])
    requires pdfplumber(content).Success?
    requires forall k | 0 <= k < |pdfplumber(content).value| :: !HasText(pdfplumber(content).value[k])
    ensures var e2 := if pdfplumber(content).value == [] then NoPagesError else NoTextError;
      ExtractText(content, pymupdf, pdfplumber) ==
        Failure(if pymupdf.Some? then BothFailedError(NoTextError, e2) else PdfplumberFailedError(e2))
  {
    if pymupdf.Some? {
      BlankPagesRefused(pymupdf.value(content).value, PyMuPdfMethod);
    }
    BlankPagesRefused(pdfplumber(content).value, PdfplumberMethod);
  }
}
