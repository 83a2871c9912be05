/** The policy around the Gemini backend: the API-key check, error classification,
    response validation and length limits, the structure-aware truncator, the retry
    loop with capped exponential backoff, and the de-duplication of section
    summaries before aggregation.  The backend itself is an oracle: `replies(i)` is
    what attempt `i` gets back. */
module GeminiClient {
  import opened Wrappers
  import opened Text
  import Seqs

  const ModelName := "gemini-2.5-flash"
  const MaxRetries: nat := 3
  /** Backoff delays are in milliseconds: base 1.0 s, cap 16.0 s. */
  const BaseDelay: nat := 1000
  const MaxDelay: nat := 16000
  const ChunkSummaryLimit: nat := 600
  const AggregationLimit: nat := 3000
  const MinResponseLength: nat := 10
  const MaxLineWords: nat := 50
  const DedupKeyLength: nat := 100
  const MinSummaryLength: nat := 20

  // ---------------------------------------------------------------- construction

  datatype Client = Client(apiKey: string, modelName: string)

  /** The constructor: a missing or blank key is refused. */
  function NewClient(apiKey: string): Result<Client, string> {
    if apiKey == [] || Strip(apiKey) == [] then Failure("Gemini API key is required")
    else Success(Client(apiKey, ModelName))
  }

  /** A client is built exactly when the key has a non-whitespace character, and it
      keeps that key. */
  lemma NewClientSpec(apiKey: string)
    ensures NewClient(apiKey).Success? <==> exists i | 0 <= i < |apiKey| :: !IsSpace(apiKey[i])
    ensures NewClient(apiKey).Success? ==> NewClient(apiKey).value.apiKey == apiKey
  {
    StripSpec(apiKey);
  }

  // ---------------------------------------------------------------- error classification

  datatype ErrorKind = RateLimit | Authentication | SafetyBlock | OtherApiError

  /** The kind of a backend failure, from its lower-cased message, first rule first. */
  function ClassifyError(message: string): ErrorKind {
    var m := Lower(message);
    if Contains(m, "quota") || Contains(m, "rate limit") then RateLimit
    else if Contains(m, "api key") || Contains(m, "authentication") then Authentication
    else if Contains(m, "safety") || Contains(m, "blocked") then SafetyBlock
    else OtherApiError
  }

  /** The message of the exception raised for a backend failure. */
  function ErrorMessage(message: string): (r: string)
    ensures EndsWith(r, message)
  {
    var prefix := match ClassifyError(message)
      case RateLimit => "API rate limit exceeded: "
      case Authentication => "API authentication failed: "
      case SafetyBlock => "Content blocked by safety filters: "
      case OtherApiError => "Gemini API error: ";
    assert (prefix + message)[|prefix + message| - |message|..] == message;
    prefix + message
  }

  lemma LowerIdempotent(s: string)
    ensures Lower(Lower(s)) == Lower(s)
  {
  }

  /** Classification ignores case: a message and its lower-cased form get the same kind. */
  lemma ClassifyIgnoresCase(message: string)
    ensures ClassifyError(Lower(message)) == ClassifyError(message)
  {
    LowerIdempotent(message);
  }

  /** The rules in priority order: rate limits win over authentication, which wins over
      safety blocks; a message matching none of them is a generic error. */
  lemma ClassifyPriority(message: string)
    ensures var m := Lower(message);
      (Contains(m, "quota") || Contains(m, "rate limit")) <==> ClassifyError(message) == RateLimit
    ensures var m := Lower(message);
      ClassifyError(message) == Authentication <==>
        !(Contains(m, "quota") || Contains(m, "rate limit"))
        && (Contains(m, "api key") || Contains(m, "authentication"))
    ensures var m := Lower(message);
      ClassifyError(message) == SafetyBlock <==>
        !(Contains(m, "quota") || Contains(m, "rate limit") || Contains(m, "api key") || Contains(m, "authentication"))
        && (Contains(m, "safety") || Contains(m, "blocked"))
    ensures var m := Lower(message);
      ClassifyError(message) == OtherApiError <==>
        !(Contains(m, "quota") || Contains(m, "rate limit") || Contains(m, "api key")
          || Contains(m, "authentication") || Contains(m, "safety") || Contains(m, "blocked"))
  {
  }

  // ---------------------------------------------------------------- backend replies

  /** What one backend call gives: an exception with its message, no response object,
      or a response whose text is missing (`None`) or present. */
  datatype Reply = Raised(message: string) | NoResponse | Returned(text: Option<string>)

  datatype CallType = ChunkSummarization | SummaryAggregation | ConnectionTest

  /** `_validate_response`: refuses a missing response, a missing or empty text, a blank
      text and a stripped text under `MinResponseLength` characters; returns the stripped
      text with its length limit enforced.  The error-indicator phrases are only logged. */
  function ValidateResponse(reply: Reply, callType: CallType): Result<string, string>
    requires !reply.Raised?
  {
    var prefix := "Invalid Gemini response: ";
    if reply.NoResponse? then Failure(prefix + "Empty response from Gemini API")
    else if reply.text.None? || reply.text.value == [] then Failure(prefix + "No text content in Gemini response")
    else
      var content := Strip(reply.text.value);
      if content == [] then Failure(prefix + "Empty text content in Gemini response")
      else if |content| < MinResponseLength then
        Failure(prefix + "Response too short: " + NatToString(|content|) + " characters")
      else Success(EnforceLengthLimits(content, callType))
  }

  /** A response passes exactly when it has a text whose stripped form has at least
      `MinResponseLength` characters, and then the result is that stripped text under
      the length limit of the call type. */
  lemma ValidateResponseSpec(reply: Reply, callType: CallType)
    requires !reply.Raised?
    ensures ValidateResponse(reply, callType).Success? <==>
      reply.Returned? && reply.text.Some? && |Strip(reply.text.value)| >= MinResponseLength
    ensures ValidateResponse(reply, callType).Success? ==>
      ValidateResponse(reply, callType).value == EnforceLengthLimits(Strip(reply.text.value), callType)
  {
  }

  /** A chunk summary that passes validation has between `MinResponseLength` and
      `ChunkSummaryLimit` characters. */
  lemma ValidatedChunkSummaryLength(reply: Reply)
    requires !reply.Raised?
    requires ValidateResponse(reply, ChunkSummarization).Success?
    ensures MinResponseLength <= |ValidateResponse(reply, ChunkSummarization).value| <= ChunkSummaryLimit
  {
    EnforceChunkLimit(Strip(reply.text.value));
  }

  // ---------------------------------------------------------------- length limits

  /** `_enforce_length_limits` */
  function EnforceLengthLimits(content: string, callType: CallType): string {
    match callType
    case ChunkSummarization =>
      if |content| > ChunkSummaryLimit then content[..ChunkSummaryLimit - 3] + "..." else content
    case SummaryAggregation =>
      if |content| > AggregationLimit then TruncateStructured(content) else content
    case ConnectionTest => content
  }

  /** A chunk summary is cut to exactly `ChunkSummaryLimit` characters, its first 597
      kept and "..." last; a short enough one is left alone; cutting twice is cutting once. */
  lemma EnforceChunkLimit(content: string)
    ensures var r := EnforceLengthLimits(content, ChunkSummarization);
      |r| == Min(|content|, ChunkSummaryLimit)
    ensures var r := EnforceLengthLimits(content, ChunkSummarization);
      |content| > ChunkSummaryLimit ==>
        r[..ChunkSummaryLimit - 3] == content[..ChunkSummaryLimit - 3] && EndsWith(r, "...")
    ensures |content| <= ChunkSummaryLimit ==> EnforceLengthLimits(content, ChunkSummarization) == content
    ensures var r := EnforceLengthLimits(content, ChunkSummarization);
      EnforceLengthLimits(r, ChunkSummarization) == r
  {
    var r := EnforceLengthLimits(content, ChunkSummarization);
    if |content| > ChunkSummaryLimit {
      assert r[..ChunkSummaryLimit - 3] == content[..ChunkSummaryLimit - 3];
      assert r[|r| - 3..] == "...";
    }
  }

  /** Aggregations up to `AggregationLimit` characters and connection tests pass unchanged. */
  lemma EnforceOtherLimits(content: string)
    ensures |content| <= AggregationLimit ==> EnforceLengthLimits(content, SummaryAggregation) == content
    ensures |content| > AggregationLimit ==>
      EnforceLengthLimits(content, SummaryAggregation) == TruncateStructured(content)
    ensures EnforceLengthLimits(content, ConnectionTest) == content
  {
  }

  // ---------------------------------------------------------------- structured truncation

  /** A section header line: starts and ends with "**". */
  predicate IsHeader(line: string) {
    StartsWith(line, "**") && EndsWith(line, "**")
  }

  /** A body line cut to its first `MaxLineWords` words, joined by single spaces, then "...". */
  function CapWords(line: string): string {
    var words := Words(line);
    if |words| > MaxLineWords then Join(words[..MaxLineWords], " ") + "..." else line
  }

  /** A line that is a header once stripped. */
  predicate HeaderLine(line: string) {
    IsHeader(Strip(line))
  }

  /** A header line has already been met among `lines`. */
  predicate HeaderSeen(lines: seq<string>) {
    Seqs.Any(lines, HeaderLine)
  }

  /** What one input line adds: nothing when blank; itself when a header; after a header,
      its capped form followed by an empty line; before any header, nothing. */
  function LineOut(line: string, seenHeader: bool): seq<string> {
    var l := Strip(line);
    if l == [] then []
    else if IsHeader(l) then [l]
    else if seenHeader then [CapWords(l), ""]
    else []
  }

  /** The lines the truncator keeps, line by line. */
  function TruncatedLines(lines: seq<string>): seq<string> {
    if lines == [] then []
    else
      var init := lines[..|lines| - 1];
      TruncatedLines(init) + LineOut(lines[|lines| - 1], HeaderSeen(init))
  }

  /** `_truncate_structured_summary` */
  function TruncateStructured(content: string): string {
    Join(TruncatedLines(Split(content, '\n')), "\n")
  }

  /** One line of the truncator's loop. */
  lemma TruncatedStep(lines: seq<string>, i: nat)
    requires i < |lines|
    ensures TruncatedLines(lines[..i + 1]) == TruncatedLines(lines[..i]) + LineOut(lines[i], HeaderSeen(lines[..i]))
    ensures HeaderSeen(lines[..i + 1]) <==> HeaderSeen(lines[..i]) || IsHeader(Strip(lines[i]))
  {
    assert lines[..i + 1][..i] == lines[..i];
  }

  /** The truncator's loop. */
  method TruncateStructuredSummary(content: string) returns (r: string)
    ensures r == TruncateStructured(content)
  {
    var lines := Split(content, '\n');
    var truncatedLines: seq<string> := [];
    var currentSection: Option<string> := None;
    for i := 0 to |lines|
      invariant truncatedLines == TruncatedLines(lines[..i])
      invariant currentSection.Some? <==> HeaderSeen(lines[..i])
    {
      ghost var before, seen := truncatedLines, currentSection.Some?;
      var line := Strip(lines[i]);
      if line != [] {
        if StartsWith(line, "**") && EndsWith(line, "**") {
          currentSection := Some(line);
          truncatedLines := truncatedLines + [line];
        } else if currentSection.Some? {
          var words := Words(line);
          if |words| > MaxLineWords {
            line := Join(words[..MaxLineWords], " ") + "...";
          }
          assert line == CapWords(Strip(lines[i]));
          truncatedLines := truncatedLines + [line];
          truncatedLines := truncatedLines + [""];
          assert truncatedLines == before + [line, ""] by {
            Seqs.AppendAssoc(before, [line], [""]);
          }
        }
      }
      assert truncatedLines == before + LineOut(lines[i], seen);
      assert currentSection.Some? <==> seen || IsHeader(Strip(lines[i]));
      TruncatedStep(lines, i);
    }
    assert lines[..|lines|] == lines;
    r := Join(truncatedLines, "\n");
  }

  /** A capped line keeps exactly its first `MaxLineWords` words before the "..."; a line
      with no more words is kept whole. */
  lemma CapWordsSpec(line: string)
    ensures |Words(line)| <= MaxLineWords ==> CapWords(line) == line
    ensures |Words(line)| > MaxLineWords ==>
      var r := CapWords(line);
      EndsWith(r, "...") && Words(r[..|r| - 3]) == Words(line)[..MaxLineWords]
  {
    var words := Words(line);
    if |words| > MaxLineWords {
      var r := CapWords(line);
      var body := Join(words[..MaxLineWords], " ");
      assert r[..|r| - 3] == body;
      WordsJoin(words[..MaxLineWords]);
    }
  }

  /** Text with no header line truncates to nothing: blank lines and body lines before
      the first header are all dropped. */
  lemma {:induction false} TruncatedWithoutHeader(lines: seq<string>)
    requires forall i | 0 <= i < |lines| :: !IsHeader(Strip(lines[i]))
    ensures TruncatedLines(lines) == []
  {
    Seqs.AnySpec(lines, HeaderLine);
    if lines != [] {
      var init := lines[..|lines| - 1];
      assert forall i | 0 <= i < |init| :: init[i] == lines[i];
      TruncatedWithoutHeader(init);
    }
  }

  /** Where each kept line comes from: a header line of the input, kept verbatim after
      stripping, or a non-blank body line after some header, kept capped, or the empty
      line after such a body line. */
  lemma {:induction false} TruncatedLineAt(lines: seq<string>, out: seq<string>, k: nat) returns (i: nat)
    requires out == TruncatedLines(lines) && k < |out|
    ensures i < |lines| && LineSource(lines, out, k, i)
  {
    var init := lines[..|lines| - 1];
    var prev := TruncatedLines(init);
    var last := LineOut(lines[|lines| - 1], HeaderSeen(init));
    assert out == prev + last;
    if k < |prev| {
      i := TruncatedLineAt(init, prev, k);
      assert out[k] == prev[k];
      SourceExtend(lines, init, out, prev, k, i);
    } else {
      i := |lines| - 1;
      assert out[k] == last[k - |prev|];
      assert lines[..i] == init;
      LineOutAt(lines[i], HeaderSeen(init), k - |prev|);
    }
  }

  /** Where the `k`th kept line comes from: input line `i`, a header kept verbatim after
      stripping, or a non-blank body line after some header, kept capped, or the empty
      line after such a body line. */
  predicate LineSource(lines: seq<string>, out: seq<string>, k: nat, i: nat)
    requires i < |lines| && k < |out|
  {
    var l := Strip(lines[i]);
    && l != []
    && (IsHeader(l) ==> out[k] == l)
    && (!IsHeader(l) ==> HeaderSeen(lines[..i]) && (out[k] == CapWords(l) || (out[k] == [] && 0 < k)))
  }

  /** A source found among the earlier lines stays a source once more lines follow. */
  lemma SourceExtend(lines: seq<string>, init: seq<string>, out: seq<string>, prev: seq<string>, k: nat, i: nat)
    requires i < |init| <= |lines| && init == lines[..|init|]
    requires k < |prev| <= |out| && out[k] == prev[k]
    requires LineSource(init, prev, k, i)
    ensures LineSource(lines, out, k, i)
  {
    assert lines[i] == init[i] && lines[..i] == init[..i];
  }

  /** Where each line one input line adds comes from. */
  lemma LineOutAt(line: string, seenHeader: bool, j: nat)
    requires j < |LineOut(line, seenHeader)|
    ensures var out := LineOut(line, seenHeader); var l := Strip(line);
      && l != []
      && (IsHeader(l) ==> out[j] == l)
      && (!IsHeader(l) ==> seenHeader && (out[j] == CapWords(l) || (out[j] == [] && j == 1)))
  {
  }

  /** A capped body line is neither empty nor a header. */
  lemma CapWordsBody(l: string)
    requires l != [] && !IsHeader(l)
    ensures CapWords(l) != [] && !IsHeader(CapWords(l))
  {
    var r := CapWords(l);
    if |Words(l)| > MaxLineWords {
      assert r[|r| - 1] == '.';
    }
  }

  /** Every kept line that is neither empty nor a header is a body line, and an empty
      line follows it. */
  lemma {:induction false} TruncatedBodyFollowed(lines: seq<string>, k: nat)
    requires k < |TruncatedLines(lines)|
    requires TruncatedLines(lines)[k] != [] && !IsHeader(TruncatedLines(lines)[k])
    ensures k + 1 < |TruncatedLines(lines)| && TruncatedLines(lines)[k + 1] == []
  {
    var init := lines[..|lines| - 1];
    var prev := TruncatedLines(init);
    var last := LineOut(lines[|lines| - 1], HeaderSeen(init));
    assert TruncatedLines(lines) == prev + last;
    if k < |prev| {
      TruncatedBodyFollowed(init, k);
    } else {
      var l := Strip(lines[|lines| - 1]);
      if l != [] && !IsHeader(l) {
        CapWordsBody(l);
      }
    }
  }

  // ---------------------------------------------------------------- retries

  function Pow2(n: nat): (r: nat)
    ensures r >= 1
  {
    if n == 0 then 1 else 2 * Pow2(n - 1)
  }

  /** The delay after failed attempt `attempt` (0-based): `BaseDelay * 2^attempt`, capped. */
  function Backoff(attempt: nat): (d: nat)
    ensures d <= MaxDelay
  {
    Min(BaseDelay * Pow2(attempt), MaxDelay)
  }

  /** The delays after the first `n` attempts. */
  function Backoffs(n: nat): (r: seq<nat>)
    ensures |r| == n
  {
    seq(n, j requires 0 <= j < n => Backoff(j))
  }

  /** One attempt: the backend's exception, classified, or its reply, validated. */
  function AttemptResult(reply: Reply, callType: CallType): Result<string, string> {
    match reply
    case Raised(message) => Failure(ErrorMessage(message))
    case _ => ValidateResponse(reply, callType)
  }

  /** The outcome of every attempt against the backend `replies`. */
  function AttemptOutcomes(replies: nat -> Reply, callType: CallType): nat -> Result<string, string> {
    (attempt: nat) => AttemptResult(replies(attempt), callType)
  }

  const RetryFailurePrefix := "Gemini API call failed after 3 attempts: "

  /** The result of a call, the delays slept between attempts, and the attempts made. */
  datatype CallOutcome = CallOutcome(result: Result<string, string>, delays: seq<nat>, attempts: nat)

  /** The retry policy from attempt `attempt` on, having slept `delays` so far, when
      attempt `j` has outcome `outcomes(j)`. */
  function RetryFrom(outcomes: nat -> Result<string, string>, attempt: nat, delays: seq<nat>): CallOutcome
    requires attempt < MaxRetries
    decreases MaxRetries - attempt
  {
    var r := outcomes(attempt);
    if r.Success? then CallOutcome(r, delays, attempt + 1)
    else if attempt < MaxRetries - 1 then RetryFrom(outcomes, attempt + 1, delays + [Backoff(attempt)])
    else CallOutcome(Failure(RetryFailurePrefix + r.error), delays, attempt + 1)
  }

  /** A whole call against the backend `replies`. */
  function CallWithRetries(replies: nat -> Reply, callType: CallType): CallOutcome {
    RetryFrom(AttemptOutcomes(replies, callType), 0, [])
  }

  /** `_make_api_call`: up to `MaxRetries` attempts, the first valid reply returned, a
      backoff delay recorded after every failed attempt but the last. */
  method MakeApiCall(replies: nat -> Reply, callType: CallType) returns (outcome: CallOutcome)
    ensures outcome == CallWithRetries(replies, callType)
  {
    ghost var outcomes := AttemptOutcomes(replies, callType);
    var delays: seq<nat> := [];
    var lastError := "";
    for attempt := 0 to MaxRetries
      invariant Pending(outcomes, attempt, delays, lastError) == RetryFrom(outcomes, 0, [])
    {
      var result := AttemptResult(replies(attempt), callType);
      assert result == outcomes(attempt);
      if result.Success? {
        return CallOutcome(result, delays, attempt + 1);
      }
      PendingStep(outcomes, attempt, delays, lastError);
      lastError := result.error;
      if attempt < MaxRetries - 1 {
        delays := delays + [Backoff(attempt)];
      }
    }
    return CallOutcome(Failure(RetryFailurePrefix + lastError), delays, MaxRetries);
  }

  /** What the retry loop still returns with `attempt` attempts made, `delays` slept and
      `lastError` the last failure. */
  function Pending(outcomes: nat -> Result<string, string>, attempt: nat, delays: seq<nat>, lastError: string): CallOutcome
    requires attempt <= MaxRetries
  {
    if attempt < MaxRetries then RetryFrom(outcomes, attempt, delays)
    else CallOutcome(Failure(RetryFailurePrefix + lastError), delays, MaxRetries)
  }

  /** A failed attempt hands over to the next one, after a backoff unless it was the last. */
  lemma PendingStep(outcomes: nat -> Result<string, string>, attempt: nat, delays: seq<nat>, lastError: string)
    requires attempt < MaxRetries && outcomes(attempt).Failure?
    ensures Pending(outcomes, attempt + 1, if attempt < MaxRetries - 1 then delays + [Backoff(attempt)] else delays,
      outcomes(attempt).error) == Pending(outcomes, attempt, delays, lastError)
  {
  }

  /** What the retry policy does from attempt `attempt` on. */
  lemma {:induction false} RetryFromSpec(outcomes: nat -> Result<string, string>, attempt: nat)
    requires attempt < MaxRetries
    ensures var o := RetryFrom(outcomes, attempt, Backoffs(attempt));
      && attempt < o.attempts <= MaxRetries
      && o.delays == Backoffs(o.attempts - 1)
      && (forall j | attempt <= j < o.attempts - 1 :: outcomes(j).Failure?)
      && (o.result.Success? ==> o.result == outcomes(o.attempts - 1))
      && (o.result.Failure? ==>
            && o.attempts == MaxRetries && outcomes(MaxRetries - 1).Failure?
            && o.result.error == RetryFailurePrefix + outcomes(MaxRetries - 1).error)
    decreases MaxRetries - attempt
  {
    if outcomes(attempt).Failure? && attempt < MaxRetries - 1 {
      assert Backoffs(attempt) + [Backoff(attempt)] == Backoffs(attempt + 1);
      RetryFromSpec(outcomes, attempt + 1);
    }
  }

  /** The whole call, when attempt `j` has outcome `outcomes(j)`: at most `MaxRetries`
      attempts; the first successful one is returned and every attempt before it failed;
      after `MaxRetries` failures the error carries the last attempt's error; the delays
      are 1 s then 2 s, one per failed attempt except the last. */
  lemma RetrySpec(outcomes: nat -> Result<string, string>)
    ensures var o := RetryFrom(outcomes, 0, []);
      && 1 <= o.attempts <= MaxRetries
      && o.delays == [1000, 2000][..o.attempts - 1]
      && (forall j | 0 <= j < o.attempts - 1 :: outcomes(j).Failure?)
      && (o.result.Success? ==> o.result == outcomes(o.attempts - 1))
      && (o.result.Failure? ==>
            && o.attempts == MaxRetries
            && (forall j | 0 <= j < MaxRetries :: outcomes(j).Failure?)
            && o.result.error == RetryFailurePrefix + outcomes(MaxRetries - 1).error)
  {
    assert Backoffs(0) == [];
    RetryFromSpec(outcomes, 0);
    var o := RetryFrom(outcomes, 0, []);
    assert Backoff(0) == 1000 && Backoff(1) == 2000;
    assert o.delays == [1000, 2000][..o.attempts - 1];
  }

  /** A chunk summary the client returns has between `MinResponseLength` and
      `ChunkSummaryLimit` characters, whatever the backend does. */
  lemma CallChunkSummaryLength(replies: nat -> Reply)
    ensures var r := CallWithRetries(replies, ChunkSummarization).result;
      r.Success? ==> MinResponseLength <= |r.value| <= ChunkSummaryLimit
  {
    var outcomes := AttemptOutcomes(replies, ChunkSummarization);
    RetrySpec(outcomes);
    var o := RetryFrom(outcomes, 0, []);
    if o.result.Success? {
      var reply := replies(o.attempts - 1);
      assert o.result == AttemptResult(reply, ChunkSummarization);
      ValidatedChunkSummaryLength(reply);
    }
  }

  /** A backend that fails once and then answers validly is answered on attempt 2,
      after one delay of 1 s. */
  lemma FailOnceThenSucceed(outcomes: nat -> Result<string, string>)
    requires outcomes(0).Failure? && outcomes(1).Success?
    ensures var o := RetryFrom(outcomes, 0, []);
      o.attempts == 2 && o.result == outcomes(1) && o.delays == [1000]
  {
    assert Backoff(0) == 1000;
  }

  /** The backoff formula caps at `MaxDelay` from the fifth failed attempt on. */
  lemma BackoffCapped(attempt: nat)
    ensures attempt <= 4 ==> Backoff(attempt) == BaseDelay * Pow2(attempt)
    ensures attempt >= 4 ==> Backoff(attempt) == MaxDelay
  {
    if attempt >= 4 {
      PowMonotone(4, attempt);
    } else {
      PowMonotone(attempt, 4);
    }
  }

  lemma {:induction false} PowMonotone(a: nat, b: nat)
    requires a <= b
    ensures Pow2(a) <= Pow2(b)
    decreases b
  {
    if a < b {
      PowMonotone(a, b - 1);
    }
  }

  // ---------------------------------------------------------------- aggregation prompt

  /** The de-duplication key of a summary: its stripped first `DedupKeyLength`
      characters, lower-cased. */
  function DedupKey(summary: string): string {
    Lower(Take(Strip(summary), DedupKeyLength))
  }

  /** A summary long enough to be aggregated. */
  predicate Substantial(summary: string) {
    |Strip(summary)| > MinSummaryLength
  }

  /** The keys recorded while scanning `xs`: one per item kept, where an item is kept when
      `keep` holds of it and its key was not recorded before. */
  function SeenKeys<T, K(==)>(xs: seq<T>, key: T -> K, keep: T -> bool): set<K> {
    if xs == [] then {}
    else
      var init := xs[..|xs| - 1];
      var x := xs[|xs| - 1];
      if key(x) !in SeenKeys(init, key, keep) && keep(x) then SeenKeys(init, key, keep) + {key(x)}
      else SeenKeys(init, key, keep)
  }

  /** The normalised items kept by that scan, in input order. */
  function Deduplicated<T, K(==)>(xs: seq<T>, key: T -> K, keep: T -> bool, norm: T -> T): seq<T> {
    if xs == [] then []
    else
      var init := xs[..|xs| - 1];
      var x := xs[|xs| - 1];
      if key(x) !in SeenKeys(init, key, keep) && keep(x) then Deduplicated(init, key, keep, norm) + [norm(x)]
      else Deduplicated(init, key, keep, norm)
  }

  /** The stripped summaries `_build_aggregation_prompt` keeps. */
  function UniqueSummaries(summaries: seq<string>): seq<string> {
    Deduplicated(summaries, DedupKey, Substantial, Strip)
  }

  /** The de-duplication loop of `_build_aggregation_prompt`. */
  method DeduplicateSummaries(summaries: seq<string>) returns (unique: seq<string>)
    ensures unique == UniqueSummaries(summaries)
  {
    unique := [];
    var seen: set<string> := {};
    for i := 0 to |summaries|
      invariant unique == Deduplicated(summaries[..i], DedupKey, Substantial, Strip)
      invariant seen == SeenKeys(summaries[..i], DedupKey, Substantial)
    {
      assert summaries[..i + 1][..i] == summaries[..i];
      var key := DedupKey(summaries[i]);
      if key !in seen && |Strip(summaries[i])| > MinSummaryLength {
        seen := seen + {key};
        unique := unique + [Strip(summaries[i])];
      }
    }
    assert summaries[..|summaries|] == summaries;
  }

  /** Stripping a summary does not change its key. */
  lemma DedupKeyStrip(summary: string)
    ensures DedupKey(Strip(summary)) == DedupKey(summary)
  {
    StripIdempotent(summary);
  }

  /** The keys recorded are exactly the keys of the kept items, when normalising an item
      does not change its key. */
  lemma {:induction false} SeenKeysOfKept<T, K>(xs: seq<T>, key: T -> K, keep: T -> bool, norm: T -> T,
                                                kept: seq<T>, seen: set<K>)
    requires forall x :: key(norm(x)) == key(x)
    requires kept == Deduplicated(xs, key, keep, norm) && seen == SeenKeys(xs, key, keep)
    ensures seen == set u | u in kept :: key(u)
  {
    if xs != [] {
      var init := xs[..|xs| - 1];
      var x := xs[|xs| - 1];
      var kept0, seen0 := Deduplicated(init, key, keep, norm), SeenKeys(init, key, keep);
      SeenKeysOfKept(init, key, keep, norm, kept0, seen0);
      if key(x) !in seen0 && keep(x) {
        assert forall y :: y in kept <==> y in kept0 || y == norm(x);
      }
    }
  }

  /** The positions of the items that scan keeps, in input order. */
  function KeptIndices<T, K(==)>(xs: seq<T>, key: T -> K, keep: T -> bool): seq<nat> {
    if xs == [] then []
    else
      var init := xs[..|xs| - 1];
      var x := xs[|xs| - 1];
      if key(x) !in SeenKeys(init, key, keep) && keep(x) then KeptIndices(init, key, keep) + [|xs| - 1]
      else KeptIndices(init, key, keep)
  }

  /** Item `i` satisfies `keep` and no earlier item satisfying `keep` has its key. */
  ghost predicate FirstOfKey<T, K>(xs: seq<T>, key: T -> K, keep: T -> bool, i: nat)
    requires i < |xs|
  {
    keep(xs[i]) && forall j | 0 <= j < i && keep(xs[j]) :: key(xs[j]) != key(xs[i])
  }

  /** A key is recorded exactly when some item satisfying `keep` has it. */
  lemma {:induction false} SeenKeysSpec<T, K>(xs: seq<T>, key: T -> K, keep: T -> bool, k: K)
    ensures k in SeenKeys(xs, key, keep) <==> exists j | 0 <= j < |xs| :: keep(xs[j]) && key(xs[j]) == k
  {
    if xs != [] {
      var init := xs[..|xs| - 1];
      SeenKeysSpec(init, key, keep, k);
      assert forall j | 0 <= j < |init| :: xs[j] == init[j];
      if exists j | 0 <= j < |xs| :: keep(xs[j]) && key(xs[j]) == k {
        var j :| 0 <= j < |xs| && keep(xs[j]) && key(xs[j]) == k;
        if j < |init| {
          assert keep(init[j]) && key(init[j]) == k;
        }
      }
    }
  }

  /** The scan keeps an item exactly when it is the first item satisfying `keep` with its key. */
  lemma {:induction false} KeptIndicesFirst<T, K>(xs: seq<T>, key: T -> K, keep: T -> bool)
    ensures forall k | 0 <= k < |KeptIndices(xs, key, keep)| :: KeptIndices(xs, key, keep)[k] < |xs|
    ensures forall i | 0 <= i < |xs| :: i in KeptIndices(xs, key, keep) <==> FirstOfKey(xs, key, keep, i)
  {
    if xs != [] {
      var init := xs[..|xs| - 1];
      var n := |xs| - 1;
      KeptIndicesFirst(init, key, keep);
      SeenKeysSpec(init, key, keep, key(xs[n]));
      FirstOfKeyPrefix(xs, key, keep, n);
      assert FirstOfKey(xs, key, keep, n) <==> key(xs[n]) !in SeenKeys(init, key, keep) && keep(xs[n]) by {
        assert forall j | 0 <= j < n :: xs[j] == init[j];
      }
    }
  }

  /** Below the last position, being the first of its key does not depend on the last item. */
  lemma FirstOfKeyPrefix<T, K>(xs: seq<T>, key: T -> K, keep: T -> bool, n: nat)
    requires n + 1 == |xs|
    ensures forall i | 0 <= i < n :: FirstOfKey(xs, key, keep, i) == FirstOfKey(xs[..n], key, keep, i)
  {
    assert forall j | 0 <= j < n :: xs[j] == xs[..n][j];
  }

  /** Every kept item is the normalised form of an input item satisfying `keep`, and the
      kept items come from increasing input positions. */
  lemma {:induction false} KeptOrigins<T, K>(xs: seq<T>, key: T -> K, keep: T -> bool, norm: T -> T, kept: seq<T>)
    returns (origin: seq<nat>)
    requires kept == Deduplicated(xs, key, keep, norm)
    ensures origin == KeptIndices(xs, key, keep)
    ensures |origin| == |kept|
    ensures forall k | 0 <= k < |origin| :: origin[k] < |xs| && keep(xs[origin[k]]) && kept[k] == norm(xs[origin[k]])
    ensures forall a, b | 0 <= a < b < |origin| :: origin[a] < origin[b]
  {
    if xs == [] {
      origin := [];
    } else {
      var init := xs[..|xs| - 1];
      var x := xs[|xs| - 1];
      var o0 := KeptOrigins(init, key, keep, norm, Deduplicated(init, key, keep, norm));
      assert forall i | 0 <= i < |init| :: xs[i] == init[i];
      if key(x) !in SeenKeys(init, key, keep) && keep(x) {
        origin := o0 + [|xs| - 1];
      } else {
        origin := o0;
      }
    }
  }

  /** No two kept items share a key. */
  lemma {:induction false} KeptKeysDistinct<T, K>(xs: seq<T>, key: T -> K, keep: T -> bool, norm: T -> T, kept: seq<T>)
    requires forall x :: key(norm(x)) == key(x)
    requires kept == Deduplicated(xs, key, keep, norm)
    ensures forall a, b | 0 <= a < b < |kept| :: key(kept[a]) != key(kept[b])
  {
    if xs != [] {
      var init := xs[..|xs| - 1];
      var x := xs[|xs| - 1];
      var kept0 := Deduplicated(init, key, keep, norm);
      KeptKeysDistinct(init, key, keep, norm, kept0);
      if key(x) !in SeenKeys(init, key, keep) && keep(x) {
        SeenKeysOfKept(init, key, keep, norm, kept0, SeenKeys(init, key, keep));
        forall a, b | 0 <= a < b < |kept|
          ensures key(kept[a]) != key(kept[b])
        {
          if b == |kept0| {
            assert kept[a] == kept0[a] && kept[a] in kept0;
          } else {
            assert kept[a] == kept0[a] && kept[b] == kept0[b];
          }
        }
      }
    }
  }

  /** Nothing is lost: the key of every input item satisfying `keep` is recorded. */
  lemma {:induction false} KeptComplete<T, K>(xs: seq<T>, key: T -> K, keep: T -> bool, seen: set<K>)
    requires seen == SeenKeys(xs, key, keep)
    ensures forall i | 0 <= i < |xs| && keep(xs[i]) :: key(xs[i]) in seen
  {
    if xs != [] {
      var init := xs[..|xs| - 1];
      KeptComplete(init, key, keep, SeenKeys(init, key, keep));
      assert forall i | 0 <= i < |init| :: xs[i] == init[i];
    }
  }

  /** Every summary has the key of its stripped form. */
  lemma DedupKeyStripAll()
    ensures forall s {:trigger DedupKey(Strip(s))} :: DedupKey(Strip(s)) == DedupKey(s)
  {
    forall s ensures DedupKey(Strip(s)) == DedupKey(s) {
      DedupKeyStrip(s);
    }
  }

  /** Each summary `_build_aggregation_prompt` keeps is the stripped form of a substantial
      chunk summary, and they keep the chunk summaries' order.  The positions they come
      from are those `UniqueSummariesFirst` characterises. */
  lemma UniqueSummariesOrigins(summaries: seq<string>) returns (origin: seq<nat>)
    ensures origin == KeptIndices(summaries, DedupKey, Substantial)
    ensures var u := UniqueSummaries(summaries);
      && |origin| == |u|
      && (forall k | 0 <= k < |origin| ::
            origin[k] < |summaries| && Substantial(summaries[origin[k]]) && u[k] == Strip(summaries[origin[k]]))
      && (forall a, b | 0 <= a < b < |origin| :: origin[a] < origin[b])
  {
    origin := KeptOrigins(summaries, DedupKey, Substantial, Strip, UniqueSummaries(summaries));
  }

  /** A summary is kept exactly when it is substantial and no earlier substantial summary
      has its key: of several summaries with one key, the first is kept. */
  lemma UniqueSummariesFirst(summaries: seq<string>)
    ensures forall i | 0 <= i < |summaries| ::
      i in KeptIndices(summaries, DedupKey, Substantial) <==>
        Substantial(summaries[i])
        && forall j | 0 <= j < i && Substantial(summaries[j]) :: DedupKey(summaries[j]) != DedupKey(summaries[i])
  {
    KeptIndicesFirst(summaries, DedupKey, Substantial);
  }

  /** No two kept summaries share a de-duplication key. */
  lemma UniqueSummariesDistinct(summaries: seq<string>)
    ensures var u := UniqueSummaries(summaries);
      forall a, b | 0 <= a < b < |u| :: DedupKey(u[a]) != DedupKey(u[b])
  {
    DedupKeyStripAll();
    KeptKeysDistinct(summaries, DedupKey, Substantial, Strip, UniqueSummaries(summaries));
  }

  /** Every substantial chunk summary shares its key with a kept summary. */
  lemma UniqueSummariesComplete(summaries: seq<string>)
    ensures var u := UniqueSummaries(summaries);
      forall i | 0 <= i < |summaries| && Substantial(summaries[i]) :: DedupKey(summaries[i]) in set w | w in u :: DedupKey(w)
  {
    var seen := SeenKeys(summaries, DedupKey, Substantial);
    DedupKeyStripAll();
    KeptComplete(summaries, DedupKey, Substantial, seen);
    SeenKeysOfKept(summaries, DedupKey, Substantial, Strip, UniqueSummaries(summaries), seen);
  }

  /** `"Section <n>: <summary>"` for every kept summary, numbered from 1. */
  function SectionEntries(unique: seq<string>): (r: seq<string>)
    ensures |r| == |unique|
  {
    seq(|unique|, i requires 0 <= i < |unique| => "Section " + NatToString(i + 1) + ": " + unique[i])
  }

  /** The "Paper:" line, present only for a non-empty title. */
  function TitleContext(title: string): string {
    if title != [] then "Paper: " + title + "\n\n" else ""
  }

  /** The parts of the aggregation prompt that depend on its inputs: the title line and
      the numbered, de-duplicated summaries separated by blank lines. */
  datatype AggregationInput = AggregationInput(titleContext: string, combinedSummaries: string)

  function BuildAggregationInput(summaries: seq<string>, title: string): AggregationInput {
    AggregationInput(TitleContext(title), Join(SectionEntries(UniqueSummaries(summaries)), "\n\n"))
  }

  /** The title line appears exactly when the title is non-empty; entries are numbered
      consecutively from 1. */
  lemma AggregationInputSpec(summaries: seq<string>, title: string)
    ensures var p := BuildAggregationInput(summaries, title);
      (p.titleContext == [] <==> title == []) && (title != [] ==> StartsWith(p.titleContext, "Paper: " + title))
    ensures var e := SectionEntries(UniqueSummaries(summaries));
      forall k | 0 <= k < |e| :: StartsWith(e[k], "Section " + NatToString(k + 1) + ": ")
  {
    var e := SectionEntries(UniqueSummaries(summaries));
    forall k | 0 <= k < |e|
      ensures StartsWith(e[k], "Section " + NatToString(k + 1) + ": ")
    {
      var p := "Section " + NatToString(k + 1) + ": ";
      assert e[k][..|p|] == p;
    }
    if title != [] {
      assert ("Paper: " + title + "\n\n")[..|"Paper: " + title|] == "Paper: " + title;
    }
  }
}
