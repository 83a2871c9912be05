# Research Paper Summarizer, modelled in Dafny

The Research Paper Summarizer backend takes an uploaded PDF and produces a structured summary of it. The pipeline has five stages:

1. The PDF processor checks the upload's signature and size, extracts the page texts and cleans them.
2. The section detector finds the academic sections (abstract, introduction, methods, …) by their headings.
3. The chunk manager cuts the sections into chunks of bounded size, each cut at a natural break.
4. The Gemini client sends each chunk, and then the combined chunk summaries, to a language model. It retries failed calls with exponential backoff, validates the replies and enforces length limits.
5. The summary generator collects the chunk summaries, extracts key points and parses the model's structured answer into sections. When parsing fails it falls back to a plain three-way split. When the model call fails it groups the chunk summaries by section type.

This project models these five services as pure Dafny functions. Where the service is a loop, it adds a Dafny method with its loop and invariants, proved equal to the function. It then proves what each service promises about its results.

## Modules

| file | module | models |
|---|---|---|
| `wrappers.dfy` | `Wrappers` | `Option`/`Result`: how the model writes `None` and a raised exception. |
| `seqs.dfy` | `Seqs` | List comprehensions (`Filter`, `Map`, `FilterMap`, `Somes`), a left fold and their lemmas. |
| `text.dfy` | `Text` | The `str` methods the services use: `strip`, `split`, `join`, `split()` into words, `lower`, `title`, `startswith`, slicing. |
| `whitespace.dfy` | `Whitespace` | The `re.sub` rewrites whose patterns consist of whitespace classes. Each is a rewrite of maximal whitespace runs. |
| `section_detector.dfy` | `SectionDetector` | `SectionDetector` in `backend/services/section_detector.py` |
| `chunk_manager.dfy` | `ChunkManager` | `ChunkManager` in `backend/services/chunk_manager.py` |
| `gemini_client.dfy` | `GeminiClient` | `GeminiClient` in `backend/services/gemini_client.py`, with the model backend as an oracle |
| `summary_generator.dfy` | `SummaryGenerator` | `SummaryGenerator` in `backend/services/summary_generator.py` |
| `pdf_processor.dfy` | `PdfProcessor` | `PDFProcessor` in `backend/services/pdf_processor.py`, without the PDF libraries |

### Modelling choices

- **No classes for the services.** Every service object holds only settings fixed in its constructor, so the services are modules with constants. The chunk manager's `max_chunk_size` is a parameter.
- **Heading patterns are a parameter.** Python's regular-expression engine is not modelled. The table of heading patterns is a parameter `matches(type, line)`; its order is kept.
- **Other regular expressions are written out.** Those whose meaning matters (`[.!?]+\s+`, `\n\s*\n`, `\s+`, `[ \t]+`, the character classes of `_clean_text`, `^\d+$`, `^Page\s+\d+$`) are written out as functions over characters.
- **Confidences are integer tenths.**
- **The model backend is an oracle.** `replies(j)` is the backend's answer to attempt `j`. The recorded backoff delays replace `asyncio.sleep`.
- **Concurrent chunk summarization** becomes one outcome per chunk, in chunk order: `asyncio.gather` keeps the task order.
- **The PDF libraries are reader parameters.** A reader yields each page's text or the message of the exception the library raised. PyMuPDF's reader is optional, as the library may not be installed; pdfplumber is the fallback.
- **Loops are methods.** Loops that build state become methods whose `ensures` ties the result to the specification function. These are `ScanMarkers`, `FilterMarkers`, `SplitLargeSection`, `CreateChunks`, `MakeApiCall`, `TruncateStructuredSummary`, `DeduplicateSummaries`, `ParseSummary`, `CreateFallbackSummary` and `SummarizeChunks`.

## Model

| member | source | states |
|---|---|---|
| SectionDetector.FirstMatchFrom | backend/services/section_detector.py:150-160 | The type found is the first in table order whose pattern matches the line, and it is never the unknown type. None is found exactly when no type from there on matches. |
| SectionDetector.Confidence | backend/services/section_detector.py:167-198 | Every confidence lies between 0.5 and 1.0. A short line equal to the type's name scores 1.0. |
| SectionDetector.LineOffsetLocates | backend/services/section_detector.py:139-163 | The running position the loop keeps is the offset of the current line in the text. |
| SectionDetector.LineMarker | backend/services/section_detector.py:142-158 | A line's marker sits at the line's offset. Its header is the non-empty stripped line, its type is not unknown, and its confidence is in [0.5, 1.0]. |
| SectionDetector.ScanIncreasing | backend/services/section_detector.py:139-163 | Markers come out in strictly increasing position. |
| SectionDetector.ScanFromLines | backend/services/section_detector.py:139-163 | Every marker is the marker of one of the lines. |
| SectionDetector.ScanInText | backend/services/section_detector.py:139-163 | Every marker position lies inside the text. |
| SectionDetector.ScanEmpty | backend/services/section_detector.py:139-163 | No marker is found exactly when no line is a heading. |
| SectionDetector.ScanLine | backend/services/section_detector.py:144-161 | One pass of the loop body appends the line's first matching type, and only that. |
| SectionDetector.MatchingType | backend/services/section_detector.py:150-160 | The inner pattern loop stops at the first type in table order whose pattern matches the stripped line, or finds none. |
| SectionDetector.ScanMarkers | backend/services/section_detector.py:138-163 | The marker loop computes the scan of the text's lines. |
| SectionDetector.SortByPosSpec | backend/services/section_detector.py:162 | Sorting by position yields a position-ordered permutation and keeps types distinct. |
| SectionDetector.SortByPosSorted | backend/services/section_detector.py:162 | Python's sort is stable: an already ordered list is unchanged. |
| SectionDetector.BestOfUnique | backend/services/section_detector.py:209-213 | Each type has at most one best marker. |
| SectionDetector.KeepTypes | backend/services/section_detector.py:209-215 | The dictionary keeps one marker per type, and exactly the input's types. |
| SectionDetector.KeepWinners | backend/services/section_detector.py:209-213 | Each kept marker is the earliest most confident marker of its type. |
| SectionDetector.FilterMarkers | backend/services/section_detector.py:200-217 | The filter loop computes: drop markers under 0.4, keep the best marker per type, sort by position. |
| SectionDetector.KeptSpec | backend/services/section_detector.py:208-217 | The result is position-ordered with one marker per type. It has exactly the input's types, each marker being the best of its type. |
| SectionDetector.FilterMarkersSpec | backend/services/section_detector.py:200-217 | Every result is a confident marker of the input. An empty input gives an empty result. |
| SectionDetector.ScanConfident | backend/services/section_detector.py:167-206 | The 0.4 cut never removes a scanned marker, since confidences are at least 0.5. |
| SectionDetector.FindSectionMarkers | backend/services/section_detector.py:132-165 | `_find_section_markers` returns the sorted, filtered markers of the scan. |
| SectionDetector.SectionMarkersSpec | backend/services/section_detector.py:132-165 | The markers are ordered, have distinct types, lie inside the text and are not unknown. |
| SectionDetector.SectionMarkersBest | backend/services/section_detector.py:132-217 | Each marker is the best heading of its type, and every type with a heading has a marker. |
| SectionDetector.SectionMarkersEmpty | backend/services/section_detector.py:132-165 | There are markers exactly when some line is a heading. |
| SectionDetector.SectionMarkersOfScan | backend/services/section_detector.py:162-165 | Sorting before the filter does not change the result: the markers are the filtered scan. |
| SectionDetector.CreateSectionsOrdered | backend/services/section_detector.py:219-250 | Sections made from ordered markers are disjoint and in order. |
| SectionDetector.CreateSectionsPlaced | backend/services/section_detector.py:219-250 | Each section lies inside the text, has at least 50 characters and is named after its type. It is the section of one marker: it starts at that marker and ends at the next marker, or at the end of the text for the last one. Its content is the stripped span without the header line. |
| SectionDetector.DropReferences | backend/services/section_detector.py:252-265 | Every non-references section of the input is kept, and every kept section is a non-references section of the input. |
| SectionDetector.DropReferencesOrder | backend/services/section_detector.py:258-265 | The kept sections are exactly the non-references sections of the input, in their original order: they come from strictly increasing input positions, and those positions are all the non-references ones. |
| SectionDetector.CollapsedSpec | backend/services/section_detector.py:294-296 | After the two substitutions: no double blanks, no run with more than two line breaks, and the non-whitespace characters are kept. |
| SectionDetector.CleanSectionContentSpec | backend/services/section_detector.py:289-298 | Cleaned content is trimmed, has no double blanks and at most two line breaks per run, and keeps every non-whitespace character. The empty input gives the empty string. |
| SectionDetector.Truncate | backend/services/section_detector.py:278-280 | Content over 50,000 characters keeps its first 50,000 plus "...". Shorter content is unchanged. |
| SectionDetector.ValidatedSpec | backend/services/section_detector.py:271-285 | A section long enough keeps non-empty cleaned content with the non-whitespace characters of its truncated content. |
| SectionDetector.TruncateNonSpace | backend/services/section_detector.py:273-280 | Truncation keeps a non-whitespace character of long enough content. |
| SectionDetector.ValidateSections | backend/services/section_detector.py:267-287 | The validation loop computes the validated sections. |
| SectionDetector.DetectSections | backend/services/section_detector.py:100-130 | `detect_sections` is the whole-text fallback or the validated, non-references sections of the markers. |
| SectionDetector.DetectOrigin | backend/services/section_detector.py:120-128 | Each detected section is a validated non-references section created from a marker. |
| SectionDetector.DetectSection | backend/services/section_detector.py:120-128 | Each detected section lies in the text, is named after its type, is neither references nor unknown, and has cleaned non-empty content. |
| SectionDetector.DetectOrdered | backend/services/section_detector.py:120-128 | Detected sections are in order, disjoint and of distinct types. |
| SectionDetector.DetectFallback | backend/services/section_detector.py:110-118 | A short or heading-less text gives the single "Full Text" unknown section spanning it with confidence 1.0. Otherwise no section is unknown. |
| SectionDetector.TypeKeysSpec | backend/services/section_detector.py:315-325 | The type keys are distinct and are exactly the counted types that occur. Every count is positive. |
| SectionDetector.TypeCountsSum | backend/services/section_detector.py:315-326 | The counts add up to the number of sections. |
| SectionDetector.GetSectionSummary | backend/services/section_detector.py:313-329 | The summary's totals, keys, counts and floor average are those of the sections. |
| SectionDetector.Tally | backend/services/section_detector.py:318-321 | Counting one more section adds its type to the key list when new, bumps its count and adds its length to the total. |
| ChunkManager.LastMatchSpec | backend/services/chunk_manager.py:151-170 | `list(re.finditer(...))[-1]` is a match after which nothing matches. There is none exactly when nothing matches. |
| ChunkManager.SentenceLast | backend/services/chunk_manager.py:151-157 | The last `[.!?]+\s+` match ends after the whitespace following the last terminator that is followed by whitespace. |
| ChunkManager.ParagraphLast | backend/services/chunk_manager.py:159-163 | The last `\n\s*\n` match starts at a blank-line break, and every break starts before its end. |
| ChunkManager.LineLast | backend/services/chunk_manager.py:165-169 | The last `\n` match is the last newline. |
| ChunkManager.LastIndexOf | backend/services/chunk_manager.py:165-169 | The position found holds the character, and none after it does. None is found exactly when the character is absent. |
| ChunkManager.SearchEmpty | backend/services/chunk_manager.py:151-170 | The `re.finditer` scan finds nothing exactly when no position matches. |
| ChunkManager.SearchLast | backend/services/chunk_manager.py:151-170 | The last non-overlapping match of the scan is a match, and nothing matches after its end. |
| ChunkManager.SentenceMatch | backend/services/chunk_manager.py:151-157 | A `[.!?]+\s+` match ends at a terminator followed by whitespace, right after that whitespace run. |
| ChunkManager.ParagraphMatch | backend/services/chunk_manager.py:159-163 | `\n\s*\n` matches at a position exactly when a blank-line break starts there. |
| ChunkManager.FindBreakPoint | backend/services/chunk_manager.py:137-180 | The break point lies between the chunk start and the window end. |
| ChunkManager.BreakAtSentence | backend/services/chunk_manager.py:150-157 | First preference: right after the last sentence end in the searched region. |
| ChunkManager.BreakAtParagraph | backend/services/chunk_manager.py:159-163 | Second preference: at the last blank-line break. |
| ChunkManager.BreakAtLine | backend/services/chunk_manager.py:165-169 | Third preference: at the last newline. |
| ChunkManager.BreakAtWord | backend/services/chunk_manager.py:171-180 | Last resort: before the window's last word, or at the window end. |
| ChunkManager.CreateChunk | backend/services/chunk_manager.py:182-207 | A chunk keeps its content and tags, counts its characters, and counts at least one sentence. |
| ChunkManager.ChunkEnd | backend/services/chunk_manager.py:108-113 | A window ends after its start, within the content and within `max_chunk_size` of its start. |
| ChunkManager.Windows | backend/services/chunk_manager.py:104-133 | Window starts lie inside the content, each at least `MinChunkSize` after the last. |
| ChunkManager.Numbered | backend/services/chunk_manager.py:116-125 | Piece k becomes the chunk numbered `start_index + k`. |
| ChunkManager.NextPos | backend/services/chunk_manager.py:127-128 | Each window starts at least `MinChunkSize` after the previous one, so the loop ends. |
| ChunkManager.SplitLargeSection | backend/services/chunk_manager.py:92-135 | The splitting loop computes the chunks of the windows over the stripped content. |
| ChunkManager.SplitWindow | backend/services/chunk_manager.py:108-133 | One window moves the start forward and extends the chunks by the window's stripped text when it has at least the minimum size. |
| ChunkManager.SplitChunk | backend/services/chunk_manager.py:92-135 | Every split chunk is numbered consecutively and is the stripped text of a slice of at most `max_chunk_size` characters. Its length is at least `MinChunkSize`. |
| ChunkManager.ChunkSection | backend/services/chunk_manager.py:67-90 | `_chunk_section` computes the section's chunks. |
| ChunkManager.CreateChunks | backend/services/chunk_manager.py:39-65 | The section loop chains the chunks of every non-skipped section with one running index. |
| ChunkManager.ChainedAppend | backend/services/chunk_manager.py:47-63 | Chaining two runs of sections gives the first run's chunks, then the second's numbered on from there. |
| ChunkManager.SectionChunkAt | backend/services/chunk_manager.py:67-135 | Each chunk of one section is numbered on from the start index, carries its tags, has a bounded size and is a stripped slice of the section. |
| ChunkManager.ChunkAt | backend/services/chunk_manager.py:39-135 | Chunk k has index k, comes from a non-skipped section with its tags, has a bounded size, and is a stripped slice of that section. |
| ChunkManager.SkippedContributesNothing | backend/services/chunk_manager.py:50-52 | Removing a skipped section changes no chunk, not even the numbering. |
| ChunkManager.ChunksOfSkipped | backend/services/chunk_manager.py:50-52 | Sections that are all skipped give no chunks. |
| ChunkManager.SingleSection | backend/services/chunk_manager.py:72-85 | A section that fits gives exactly one chunk of its stripped content. |
| ChunkManager.ValidateChunksSpec | backend/services/chunk_manager.py:209-244 | Validation keeps exactly the acceptable chunks, in order, and distributes over concatenation. |
| ChunkManager.ValidateChunksOrder | backend/services/chunk_manager.py:209-244 | Validation keeps increasing chunk indices increasing. |
| ChunkManager.ValidateCreated | backend/services/chunk_manager.py:209-244 | On `create_chunks` output, validation only drops chunks with too few words. |
| ChunkManager.OptimizeChunkSpec | backend/services/chunk_manager.py:288-327 | The header pass keeps index, tags and sentence count and puts the header first. The content is kept whole when it fits; otherwise it is the header plus the content's start, ending in "...". It stays within the size limit whenever the header leaves room for "...". |
| ChunkManager.OptimizeChunksSpec | backend/services/chunk_manager.py:288-327 | The header pass keeps the number and order of the chunks. |
| ChunkManager.StatisticsClasses | backend/services/chunk_manager.py:246-286 | The three size classes count every chunk exactly once. |
| ChunkManager.StatisticsSizes | backend/services/chunk_manager.py:246-286 | The minimum and maximum are sizes of actual chunks and bound all the others. The average lies between them. |
| ChunkManager.StatisticsSections | backend/services/chunk_manager.py:246-286 | The section names are exactly the chunks' sections. |
| GeminiClient.NewClientSpec | backend/services/gemini_client.py:36-40 | A client is built exactly when the key has a non-whitespace character, and it keeps the key. |
| GeminiClient.ErrorMessage | backend/services/gemini_client.py:207-217 | The raised message ends with the backend's message. |
| GeminiClient.ClassifyIgnoresCase | backend/services/gemini_client.py:207-217 | Classification ignores case. |
| GeminiClient.ClassifyPriority | backend/services/gemini_client.py:207-217 | Each kind is given exactly when its words occur and no earlier rule's words do. The order is rate limit ("quota", "rate limit"), then authentication ("api key", "authentication"), then safety ("safety", "blocked"). A message matching none of them is a generic error. |
| GeminiClient.ValidateResponseSpec | backend/services/gemini_client.py:219-264 | A reply passes exactly when its stripped text has at least 10 characters. It is then the stripped text under the length limit. |
| GeminiClient.ValidatedChunkSummaryLength | backend/services/gemini_client.py:237-281 | A validated chunk summary has between 10 and 600 characters. |
| GeminiClient.EnforceChunkLimit | backend/services/gemini_client.py:277-281 | A chunk summary is cut to exactly 600 characters ending in "...". Short ones are untouched, and cutting twice is cutting once. |
| GeminiClient.EnforceOtherLimits | backend/services/gemini_client.py:266-289 | Aggregations up to 3000 characters and other calls pass unchanged; longer aggregations are truncated structurally. |
| GeminiClient.TruncateStructuredSummary | backend/services/gemini_client.py:291-322 | The truncation loop computes the structured truncation. |
| GeminiClient.TruncatedStep | backend/services/gemini_client.py:305-320 | One line of the loop appends that line's output and updates the header flag. |
| GeminiClient.CapWordsSpec | backend/services/gemini_client.py:316-318 | A capped line keeps exactly its first 50 words before "...". A shorter line is kept whole. |
| GeminiClient.TruncatedWithoutHeader | backend/services/gemini_client.py:305-320 | Text without a header line truncates to nothing. |
| GeminiClient.TruncatedLineAt | backend/services/gemini_client.py:305-320 | Each output line is a stripped header, a capped body line after a header, or the spacer after such a line. |
| GeminiClient.TruncatedBodyFollowed | backend/services/gemini_client.py:319-320 | Every body line is followed by an empty line. |
| GeminiClient.BackoffCapped | backend/services/gemini_client.py:184-186 | The delay is `1 s * 2^attempt` up to the 16 s cap. |
| GeminiClient.Backoff | backend/services/gemini_client.py:184-186 | No delay exceeds the cap. |
| GeminiClient.MakeApiCall | backend/services/gemini_client.py:152-198 | The retry loop computes the call outcome with its attempts and delays. |
| GeminiClient.RetryFromSpec | backend/services/gemini_client.py:166-198 | From any attempt on, the call fails only after `max_retries` failures, returns the first success, and records the backoff delays. |
| GeminiClient.RetrySpec | backend/services/gemini_client.py:152-198 | At most 3 attempts, and the first success is returned after only failures. After 3 failures the error carries the last one. The delays are 1 s and 2 s. |
| GeminiClient.FailOnceThenSucceed | backend/services/gemini_client.py:166-190 | One failure then a valid reply: answered on attempt 2 after one 1 s delay. |
| GeminiClient.CallChunkSummaryLength | backend/services/gemini_client.py:61-73 | Whatever the backend does, a chunk summary returned has 10 to 600 characters. |
| GeminiClient.DeduplicateSummaries | backend/services/gemini_client.py:106-115 | The de-duplication loop computes the unique summaries. |
| GeminiClient.DedupKeyStrip | backend/services/gemini_client.py:112 | Stripping a summary does not change its key. |
| GeminiClient.UniqueSummariesOrigins | backend/services/gemini_client.py:106-115 | Each kept summary is a stripped substantial input summary, in input order, taken from the positions `KeptIndices` names. |
| GeminiClient.UniqueSummariesFirst | backend/services/gemini_client.py:110-115 | A summary is kept exactly when it is substantial and no earlier substantial summary has its key, so the first summary with a key is the one kept. |
| GeminiClient.UniqueSummariesDistinct | backend/services/gemini_client.py:106-115 | No two kept summaries share a key. |
| GeminiClient.UniqueSummariesComplete | backend/services/gemini_client.py:106-115 | Every substantial summary's key is represented. |
| GeminiClient.SectionEntries | backend/services/gemini_client.py:117 | There is one entry per unique summary. |
| GeminiClient.AggregationInputSpec | backend/services/gemini_client.py:117-119 | The title context is present exactly for a non-empty title and starts with "Paper: " and the title. Entry k is labelled "Section k+1: ". |
| SummaryGenerator.SentencesSpec | backend/services/summary_generator.py:223 | Sentences are non-empty, trimmed and contain no full stop. |
| SummaryGenerator.KeyPointsOfFirst | backend/services/summary_generator.py:223-231 | Key points are the first five sentences of reasonable length, each with a full stop added. |
| SummaryGenerator.KeyPointsSpec | backend/services/summary_generator.py:212-231 | There are at most five key points, each a first-five sentence of length 21..199 followed by ".". |
| SummaryGenerator.KeyPointsComplete | backend/services/summary_generator.py:227-229 | Every first-five sentence of reasonable length becomes a key point. |
| SummaryGenerator.CreateSimpleSections | backend/services/summary_generator.py:303-332 | Always three sections. |
| SummaryGenerator.SimpleSectionsSpec | backend/services/summary_generator.py:314-329 | Overview, Key Findings and Conclusions hold exactly the words, in order, in thirds rounded down. The last section takes the rest. |
| SummaryGenerator.FindHeaderKey | backend/services/summary_generator.py:264-281 | The header scan finds the first key in table order with a synonym in a heading-shaped line. |
| SummaryGenerator.FirstKeyAt | backend/services/summary_generator.py:265-281 | The key found is the first table entry with a synonym in the line. |
| SummaryGenerator.FirstKeyNone | backend/services/summary_generator.py:265-281 | No key is found exactly when no entry matches. |
| SummaryGenerator.HeaderKeySpec | backend/services/summary_generator.py:250-281 | A line is a header exactly when it is heading-shaped and mentions a synonym; the first key wins. |
| SummaryGenerator.HeaderKeyIsSectionKey | backend/services/summary_generator.py:250-256 | A header always opens one of the five sections. |
| SummaryGenerator.ParseSummary | backend/services/summary_generator.py:243-301 | The line loop computes the structured parse. |
| SummaryGenerator.ParseStructuredSummary | backend/services/summary_generator.py:297-301 | The result has at least three sections. |
| SummaryGenerator.FlushSpec | backend/services/summary_generator.py:269-294 | Closing a section appends the title-cased key with its lines joined, only when it has content. |
| SummaryGenerator.StepWellFormed | backend/services/summary_generator.py:258-287 | Every line keeps the parser state well formed. |
| SummaryGenerator.ParsedSectionsSpec | backend/services/summary_generator.py:258-294 | Every parsed section has a canonical title and non-empty content. |
| SummaryGenerator.PreambleIgnored | backend/services/summary_generator.py:283-287 | Lines before the first header are ignored. |
| SummaryGenerator.ParseStructuredSpec | backend/services/summary_generator.py:243-301 | The result is the parsed sections, or the simple sections when fewer than three parse. |
| SummaryGenerator.CreateFallbackSummary | backend/services/summary_generator.py:334-370 | The grouping loop computes the fallback sections. |
| SummaryGenerator.GroupSummaries | backend/services/summary_generator.py:346-352 | The grouping loop lists the section types in order of first occurrence, and gives each exactly the summaries of its type, in order. |
| SummaryGenerator.GroupSections | backend/services/summary_generator.py:354-361 | One section per group, titled after its type, holding the group's summaries joined by spaces, in key order. |
| SummaryGenerator.GroupStep | backend/services/summary_generator.py:347-352 | One summary adds its type if new and joins its type's group. |
| SummaryGenerator.SectionTypesCover | backend/services/summary_generator.py:347-352 | Every chunk's type is listed, and only those. |
| SummaryGenerator.SectionTypesOrder | backend/services/summary_generator.py:347-352 | Types are listed in first-occurrence order. |
| SummaryGenerator.SectionTypesDistinct | backend/services/summary_generator.py:347-352 | No type is listed twice. |
| SummaryGenerator.FallbackSpec | backend/services/summary_generator.py:334-370 | No summaries give the placeholder. Otherwise there is one section per type with its summaries space-joined. |
| SummaryGenerator.GroupsPartition | backend/services/summary_generator.py:347-352 | The groups partition the chunk summaries. |
| SummaryGenerator.SummarizeChunks | backend/services/summary_generator.py:112-127 | The result loop computes the collection of the successful outcomes. |
| SummaryGenerator.CollectSpec | backend/services/summary_generator.py:112-127 | It fails exactly when every chunk failed. Otherwise it keeps exactly one entry per successful chunk, in chunk order: the entries come from strictly increasing positions, and those are all the successful ones. |
| SummaryGenerator.AggregateSpec | backend/services/summary_generator.py:171-210 | Aggregation fails only on empty input. A reply gives at least three sections; a failed call gives one section per type. |
| SummaryGenerator.GenerateSummarySpec | backend/services/summary_generator.py:50-85 | No chunks, or all failed, is an error. Otherwise every chunk is counted, and the success count is the number of chunks whose call succeeded (between 1 and the chunk count). The title or the default is kept, and there is at least one section. |
| SummaryGenerator.GenerateSummaryCollected | backend/services/summary_generator.py:50-85 | When some chunk's call succeeded, the pipeline succeeds and its chunk summaries are the collected ones. |
| SummaryGenerator.CollectOrigins | backend/services/summary_generator.py:112-169 | Each collected chunk summary answers one chunk, in chunk order, with its index, tags and key points. Every chunk whose call succeeded has one. |
| SummaryGenerator.GenerateSummaryOrigins | backend/services/summary_generator.py:129-169 | When some chunk's call succeeded, the pipeline succeeds. Each of its chunk summaries answers one chunk, in order, with its index, tags and key points, and every chunk whose call succeeded has one. |
| SummaryGenerator.ClientSummaryLengths | backend/services/summary_generator.py:140-162 | With the Gemini client answering the chunks and some call succeeding, the pipeline succeeds and every chunk summary has 10 to 600 characters, whatever the aggregation answer. |
| PdfProcessor.ValidatePdfContent | backend/services/pdf_processor.py:239-253 | Valid exactly when the content starts with "%PDF-". Under four bytes is never valid. |
| PdfProcessor.ValidateExamples | backend/test_basic.py:29-42 | The smoke test's inputs: a PDF header passes, "not a pdf" and the empty content fail. |
| PdfProcessor.ReplaceNonAscii | backend/services/pdf_processor.py:209 | Every output character is a space or an ASCII character of the input. |
| PdfProcessor.NormalizePrintable | backend/services/pdf_processor.py:205-209 | After the three substitutions, every character is printable ASCII and no line break is left. |
| PdfProcessor.VisibleOfNormalize | backend/services/pdf_processor.py:205-209 | The substitutions keep every visible character of the input, in order. |
| PdfProcessor.NormalizeBreaksIdle | backend/services/pdf_processor.py:212-214 | The three line-break rules change nothing on text without line breaks. |
| PdfProcessor.CleanTextOneLine | backend/services/pdf_processor.py:201-237 | `_clean_text` is the stripped normalized text, or "" when the line filter drops it. |
| PdfProcessor.CleanTextSpec | backend/services/pdf_processor.py:201-237 | "" stays "". The result has no line break, is printable ASCII and trimmed, and is empty exactly when the normalized line is a page number, a "Page N" label or under 3 characters. |
| PdfProcessor.CleanTextVisible | backend/services/pdf_processor.py:201-237 | A non-empty result holds all visible characters of the input, in order. |
| PdfProcessor.CleanTextWord | backend/services/pdf_processor.py:217-231 | A word of visible characters passes unchanged unless it is a page number or under 3 characters. |
| PdfProcessor.CombinePagesEmpty | backend/services/pdf_processor.py:110-118 | The combined text is empty exactly when no page has text. |
| PdfProcessor.CleanPages | backend/services/pdf_processor.py:117-122 | A library's pages are refused with "No readable text found in PDF" exactly when their cleaned combined text is blank. A success names the library and counts every page. |
| PdfProcessor.ExtractWithPyMuPdf | backend/services/pdf_processor.py:90-142 | The library's error, the encryption check included, is passed on unchanged. Otherwise the result is the cleaning of the pages it read. |
| PdfProcessor.ExtractWithPdfplumber | backend/services/pdf_processor.py:144-189 | As for PyMuPDF, but a document without pages is refused with "PDF has no pages" before any cleaning. |
| PdfProcessor.ExtractText | backend/services/pdf_processor.py:45-88 | Empty content and content over 50 MiB are refused with their messages. A success has a size in range and non-empty text. |
| PdfProcessor.SizeGuardFirst | backend/services/pdf_processor.py:60-64 | An empty or oversized file gets the same answer whatever the libraries would do. |
| PdfProcessor.ExtractFallback | backend/services/pdf_processor.py:67-80 | With PyMuPDF installed, its success is taken. When it fails, pdfplumber's success is taken. When both fail, the error is "PDF text extraction failed: PyMuPDF error: e, pdfplumber error: e2". |
| PdfProcessor.ExtractWithoutPyMuPdf | backend/services/pdf_processor.py:81-88 | Without PyMuPDF, pdfplumber's success is taken and its failure becomes "PDF text extraction failed: pdfplumber error: e". |
| PdfProcessor.ExtractFailureWrapped | backend/services/pdf_processor.py:66-88 | Once the size guard has passed, every error starts with "PDF text extraction failed: ". |
| PdfProcessor.CleanPagesSpec | backend/services/pdf_processor.py:117-122 | A library's accepted text is the cleaned combined pages: no line break, printable, trimmed, at least 3 characters. |
| PdfProcessor.ExtractTextSpec | backend/services/pdf_processor.py:45-88 | A success comes from the library its extraction method names, PyMuPDF only when installed. Its text is the cleaning of that library's pages and its page count theirs. The text has no line break, is printable and trimmed, with at least 3 characters. |
| PdfProcessor.BlankPagesRefused | backend/services/pdf_processor.py:104-122 | A library that reads only blank pages refuses them as having no readable text. |
| PdfProcessor.ExtractBlankPages | backend/services/pdf_processor.py:66-88 | A document whose pages are all blank fails with the wrapped error. The error carries "No readable text found in PDF" once per library tried ("PDF has no pages" for pdfplumber when it finds none). |

## Left out

- Regular expressions of the heading table: a parameter `matches`, not an engine.
- Logging, `time.time()` processing times, the model name and the wording of the prompt templates.
- Floating point: confidences are integer tenths, so 0.5 + 0.2 + 0.1 is exactly 0.8. In binary floating point it is 0.7999999999999999, while 0.5 + 0.1 + 0.2 is 0.8. So `_filter_markers`' strict `>` can keep a different marker of a type than `KeepWinners`, which sees a tie and keeps the earlier one. An example is a short uppercase "FINAL THOUGHTS" conclusion heading at half the text, followed after 70% of the lines by a long uppercase "IN CONCLUSION ..." heading: Python keeps the second, the model the first. Delays are integer milliseconds. The success rate is the pair (successful chunks, chunks).
- Concurrency: `asyncio.Semaphore`, `gather` and the `wait_for` timeouts. A timeout counts as a failed outcome.
- `_summarize_chunks`' `failed_count`: it only feeds a log line.
- `test_connection`, `get_model_info`, `test_summarization`, `summarize_chunk`'s and `aggregate_summaries`' prompt text, `genai` configuration.
- The PDF libraries themselves: opening the document, the encryption check and reading each page's text are inside the reader parameters. `get_pdf_info` only calls into PyMuPDF and is not modelled.
- The document metadata and the file name that `ExtractedText` carries: `Extracted` keeps the text, the page count and the extraction method.
- Exception classes: an error is its message. The model does not say whether a failure is a `ValueError` or a `RuntimeError`.
- `_extract_with_pymupdf`'s "PyMuPDF is not available" check: `extract_text` calls it only when PyMuPDF is installed.
- `Lower`, `Title` and `isupper` work on ASCII letters only; `\d` is the ASCII digits. After `_clean_text`'s substitutions only ASCII is left, so there this is exact.
- A negative `max_chunk_size`: the size is a `nat` in the model.
- ChunkManager.OptimizeChunkSpec: the size bound holds only when the header leaves room for "..."; otherwise Python's negative slice index is modelled but no bound is stated.
- ChunkManager.StatisticsSections: `section_names` is a set, since `list(set(...))` has no defined order.
- GeminiClient.EnforceOtherLimits: the structural truncation of an aggregation over 3000 characters is not shown to bring it under 3000, because it does not: it caps line lengths, not the total.
- SummaryGenerator.FallbackSpec: states "no summaries gives the placeholder" as an implication only. A single summary of type "summary" whose text is the placeholder's gives the same list.
