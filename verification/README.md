# Enterprise AI Assistant: the document question router, in Dafny

The assistant is a chat front end over one uploaded document. When a
document is uploaded, its text is cut into overlapping windows of words and
indexed for search. A question first goes through a small classifier that
answers greetings, thanks and goodbyes directly. Any other question goes to
`get_answer`, an ordered chain of steps:

1. the no-document guard;
2. the image branch, one model call on the recognised text;
3. the page, row, column and slide shortcuts read from the metadata;
4. an attendance counter that reads the text as a table;
5. the document search, followed by up to five model calls with
   exponential back-off.

The chat appends a closing sentence to an answer unless the answer reads as
a failure. The history is capped at 50 messages.

The model is functional: immutable datatypes and pure functions.

| module | what it models |
|---|---|
| `Wrappers` | `Option` |
| `Text` | the Python `str` operations used: `isspace`, `lower`, `strip`, `split()`, `join`, substring `in`, `splitlines`, `str(int)` |
| `VectorStore` | `chunk_text`, the empty-text guard of `create_vector_store`, and the index filter of `retrieve_chunks` |
| `Attendance` | the attendance counter of `get_answer`, covering the `\s{2,}\|\t` cell splitter, header detection in the first 15 lines, status normalisation, tallies and the summary text |
| `Generation` | the image call, and the retry loop with its back-off delays returned as data |
| `RagPipeline` | the session state left by `build_rag_index`, and the decision chain of `get_answer` |
| `App` | the social-query classifier, the closing-sentence rule and the 50-message history cap |

Outside influences are parameters:

- The vector index's answer to a query is a sequence of labels `labels`. Each label is `-1` or a chunk position, as FAISS promises, and is otherwise arbitrary. A search asks for 15 neighbours and gets 15 labels, padded with `-1`; `VectorStore.RetrievedAtMostTopK` states what follows from that.
- The hosted chat model is an oracle `oracle: nat -> Outcome`, where `oracle(i)` is what the `i`-th call returns (`Ok(content)`) or raises (`Fail(error)`). A function is used rather than a finite list of outcomes, so there is no "past the end" case to invent.
- Each answer is a `Reply`. It records the step that produced the text, the chunks given to the model, the number of model calls and the sleeps between them, so the contracts can speak about what was and was not consulted.

Two behaviours of the code are reproduced as written:

- When no header is found, the status column stays `-1`. Python then reads `cells[-1]`, the last cell of every line.
- Status indicators are matched as substrings. A question containing "present" therefore also asks for `p`, and its summary reports the Present line twice (`Attendance.PresentReportedTwice`).

An empty chat input is never answered (app.py:65), so `App.Respond` requires a non-empty query.

The final `return "Failed to generate response."` (rag_pipeline.py:188) cannot be reached: the loop body returns on every path of its fifth iteration. `Generation.Retry` has no such outcome.

## Model

| member | source | states |
|---|---|---|
| VectorStore.ChunkText | vector_store.py:11-19 | a zero stride is the `ValueError` of `range`; a negative stride (window shorter than the overlap) gives exactly `[""]` whatever the text; a positive stride gives a list that is never empty, is `[""]` iff the text has no words, and otherwise holds only non-empty chunks |
| VectorStore.DefaultChunks | vector_store.py:11-19 | with the default 500-word window and 100-word overlap: never empty, and `[""]` exactly for a text without words |
| VectorStore.Range | vector_store.py:15 | `range(start, stop, step)`: empty iff `start >= stop`; element k is `start + k*step`, all below `stop`, and the next step would reach `stop` |
| VectorStore.WordChunks | vector_store.py:14-18 | one chunk per window start, each the space-join of its window; empty only for no words; no chunk is empty |
| VectorStore.ChunksOfText | vector_store.py:12-19 | for a text with words, `chunk_text` returns exactly the window chunks of `text.split()` |
| VectorStore.ChunkCount | vector_store.py:14-18 | n > 0 words give ceil(n / step) chunks: `(c-1)*step < n <= c*step` |
| VectorStore.ChunkContents | vector_store.py:15-16 | chunk k is `" ".join(words[k*step : k*step+size])`, splits back into those words, and has between 1 and `size` words |
| VectorStore.ChunksCoverEveryWord | vector_store.py:15-16 | every word j lies in chunk `j / step`, at position `j - (j/step)*step` |
| VectorStore.ConsecutiveChunksOverlap | vector_store.py:15-16 | the last `size - step` words of chunk k are the first words of chunk k+1 |
| VectorStore.StartOfIsProduct | vector_store.py:15 | the k-th window start of `range(0, n, step)` is `k * step` |
| VectorStore.CreateVectorStore | vector_store.py:21-33 | an index is built iff the text has a word; without one the chunks are `[]`, with one they are the non-empty chunks of `chunk_text` with its defaults |
| VectorStore.StoredChunksAreWindows | vector_store.py:11-33 | for a text with words the stored chunks are exactly the 500-word windows of `split()` that start every 400 words |
| VectorStore.HitCount | vector_store.py:43-45 | the number of usable labels is at most the number of labels |
| VectorStore.Gather | vector_store.py:42-46 | the filtered list has one entry per usable label |
| VectorStore.GatherPlacesHits | vector_store.py:42-46 | a usable label at position p puts `chunks[label]` at the position given by the number of usable labels before p, so search order is kept |
| VectorStore.GatherOnlyHits | vector_store.py:43-45 | every retrieved chunk is `chunks[i]` for some label i that is neither -1 nor out of range |
| VectorStore.GatherAllHits | vector_store.py:42-46 | when every label is usable, the result is `[chunks[i] for i in labels]` |
| VectorStore.AllHitsCount | vector_store.py:43-45 | when every label is usable, all of them are counted |
| VectorStore.RetrieveChunks | vector_store.py:35-46 | `[]` without an index or without chunks; otherwise one chunk per usable label, the chunk of the usable label at search position p sitting at the rank of p among the usable labels, so search order is kept; every element is named by a usable label |
| VectorStore.RetrievedAtMostTopK | vector_store.py:35-46 | with the 15 labels a search returns, at most 15 chunks come back, and exactly 15 iff there is an index, there are chunks and every label is usable |
| VectorStore.FullCountAllHits | vector_store.py:43-45 | when every label is counted, every label is usable |
| Text.WordsEmptyIffAllSpace | vector_store.py:12 | `split()` gives no tokens iff the text is all whitespace |
| Text.WordsOfJoin | vector_store.py:16 | splitting the space-join of whitespace-free tokens gives the tokens back |
| Text.StripEmptyIffAllSpace | vector_store.py:17 | `strip()` gives `""` iff the string is all whitespace |
| Text.StripIsSlice | rag_pipeline.py:41 | the stripped string is a slice of the input, and everything before and after that slice is whitespace |
| Text.StripStartsAtFirstNonSpace | rag_pipeline.py:130 | the stripped string is empty iff nothing is left once the leading whitespace is cut, and otherwise begins with the first character that is not whitespace |
| Text.StripKeepsCharacters | rag_pipeline.py:41 | every character of the stripped string occurs in the input |
| Text.StrippedIsFixedPoint | rag_pipeline.py:100 | stripping leaves a string unchanged iff it neither starts nor ends with whitespace; stripping twice is stripping once |
| Text.Strip | rag_pipeline.py:41 | the stripped string is no longer than the input and neither starts nor ends with whitespace (what is cut away is stated by `StripIsSlice`) |
| Text.TrimLeft | rag_pipeline.py:41 | the result is a suffix of the input, the dropped prefix is whitespace, and the result does not start with whitespace |
| Text.TrimRight | rag_pipeline.py:41 | the result is a prefix of the input, the dropped suffix is whitespace, and the result does not end with whitespace |
| Text.Lower | rag_pipeline.py:41 | same length; each ASCII capital becomes its small letter (code point + 32), every other character is unchanged, and no capital is left |
| Text.LowerIdempotent | rag_pipeline.py:41 | lower-casing twice is lower-casing once |
| Text.NonBlankLines | rag_pipeline.py:100 | every kept line is non-empty and neither starts nor ends with whitespace, and no line is kept exactly when the whole text is whitespace (the exact lines are stated by `NonBlankLinesOfLines`) |
| Text.DropEmpty | rag_pipeline.py:100 | the result is no longer than the input; it holds every non-empty string of the input and nothing else, and it is empty exactly when every input string is empty |
| Text.DropEmptyAppend | rag_pipeline.py:100 | the filter works on each part of a concatenation separately, so the kept lines stay in their order |
| Text.NonBlankLinesOfLines | rag_pipeline.py:100 | for any lines without line breaks, blank and padded ones included, the filter applied to their newline-join gives each line stripped, with the lines left empty dropped, in order |
| Text.NonBlankLinesOfJoin | rag_pipeline.py:100 | the line filter applied to the newline-join of non-empty lines without line breaks or surrounding whitespace gives those lines back |
| Text.LinePiecesOfJoin | rag_pipeline.py:100 | cutting the newline-join of lines without line breaks at the breaks gives the lines back |
| Text.Words | vector_store.py:12 | every token of `split()` is non-empty and holds no whitespace |
| Text.NatToStringRoundTrip | rag_pipeline.py:78 | `str(n)` is the decimal numeral whose value is n |
| Attendance.SepLength | rag_pipeline.py:108 | the separator at the head of a string: a tab or a run of two or more whitespace characters, matched greedily; zero exactly when none starts there |
| Attendance.Cells | rag_pipeline.py:108 | the split of a line has at least one piece |
| Attendance.CellsWithoutSeparator | rag_pipeline.py:108 | a line without a tab or a run of two whitespace characters is one cell, the line itself |
| Attendance.CellsSingleSpaced | rag_pipeline.py:108 | no cell produced by the splitter holds a tab or two whitespace characters in a row |
| Attendance.CellsOfJoinTabs | rag_pipeline.py:108 | splitting the tab-join of clean cells gives the cells back |
| Attendance.HeaderCol | rag_pipeline.py:109-113 | the first cell whose lower-cased text holds a header keyword; `None` iff there is none |
| Attendance.FirstHeader | rag_pipeline.py:106-115 | the first row with a header cell and that cell's column; `None` iff no row has one |
| Attendance.FindHeader | rag_pipeline.py:106 | a header is looked for only among the first 15 lines |
| Attendance.FindHeaderIsFirst | rag_pipeline.py:102-115 | the header is the first header cell of the first of the first 15 lines that has one; `None` iff none of those lines does |
| Attendance.StatusCol | rag_pipeline.py:104-111 | the column is -1 exactly when no header was found, and otherwise it is the header's column |
| Attendance.StartRow | rag_pipeline.py:125 | counting starts at line 0 exactly when no header was found, and otherwise at the line after the header |
| Attendance.StatusMap | rag_pipeline.py:117-122 | a key of the status table is found only when its first letter names its category |
| Attendance.Normalize | rag_pipeline.py:131 | a status normalises by its first character alone: p, a, h and l name the four categories; anything else, and the empty status, is not counted |
| Attendance.StatusOf | rag_pipeline.py:127-131 | a line too short for the status column has no status; otherwise its status is the category named by the first non-whitespace character of the cell (column -1: the last cell), in either letter case |
| Attendance.Count | rag_pipeline.py:133 | a category is counted at most once per line |
| Attendance.CountAppend | rag_pipeline.py:127-133 | adding a line adds one to its category's count and leaves the others unchanged |
| Attendance.TallyOf | rag_pipeline.py:124-133 | each category's tally is the number of lines whose status normalises to it |
| Attendance.CountsTotal | rag_pipeline.py:127-133 | each line counts towards at most one category: the four counts add up to at most the number of lines, and to all of them iff every line has a status |
| Attendance.TableTally | rag_pipeline.py:124-133 | the tally counts exactly the lines from the line after the header (or line 0) on, reading the header's column (or the last cell); the four counts add up to at most the number of lines |
| Attendance.TextTally | rag_pipeline.py:100-133 | the four counts of a document's table add up to at most its number of non-blank lines |
| Attendance.AskedAmong | rag_pipeline.py:136 | the asked indicators are exactly those of the list that occur in the query |
| Attendance.AskedAmongAppend | rag_pipeline.py:136 | the indicators asked among a concatenation are those asked among the first part, then those asked among the second |
| Attendance.AskedInListOrder | rag_pipeline.py:136 | a mentioned indicator at list position j is the asked indicator right after those asked among the first j, so the asked list keeps list order |
| Attendance.Parts | rag_pipeline.py:140-144 | at most one summary line per asked indicator |
| Attendance.PartsAreCounted | rag_pipeline.py:140-144 | every summary line is the line of an asked category with a positive count |
| Attendance.PartsCoverCounted | rag_pipeline.py:141-144 | every asked category with a positive count has its line in the summary |
| Attendance.PartsEmptyIff | rag_pipeline.py:143-146 | there are no summary lines iff every asked category has count zero |
| Attendance.AskedCountedIff | rag_pipeline.py:136-144 | there are summary lines iff some indicator in the query names a category with a positive count |
| Attendance.Summary | rag_pipeline.py:136-147 | a summary is given iff some indicator in the query names a category with a positive count; it is the heading followed by the newline-joined summary lines |
| Attendance.RepeatedCategory | rag_pipeline.py:136-144 | two asked indicators of the same counted category produce the same line twice |
| Attendance.PresentReportedTwice | rag_pipeline.py:94 | a query containing "present" also asks "p", so a positive Present count is reported twice |
| Attendance.AttendanceAnswer | rag_pipeline.py:96-99 | nothing is counted unless the query holds both a count word and a status indicator |
| Attendance.AttendanceAnswerIff | rag_pipeline.py:96-149 | the counter answers iff the query is an attendance count and an asked category has a positive count in the text's table |
| Generation.AnswerOr | rag_pipeline.py:180-181 | a blank reply gives the fallback; any other reply is returned stripped and non-empty |
| Generation.ImageAnswer | rag_pipeline.py:62-73 | the stripped reply, "No clear text could be extracted from the image." for a blank one, or "Error analyzing image: " followed by the error; never empty |
| Generation.CallsFrom | rag_pipeline.py:172-186 | calls stop at the first success or at the limit; every call before the last failed; after failed call a the loop sleeps `2 ** a` |
| Generation.Retry | rag_pipeline.py:172-186 | one to five calls, all but the last failed; a success gives its stripped reply or "No clear answer found."; five failures give "Temporary issue with the AI model. Please try again."; sleep k is `2 ** k` |
| Generation.RetryDelays | rag_pipeline.py:183-184 | the sleeps are the first `calls - 1` of 1, 2, 4, 8 |
| Generation.RetryAnswersFirstSuccess | rag_pipeline.py:172-186 | the reply is that of the first successful call among the first five; with none, five calls, the apology and the sleeps 1, 2, 4, 8 |
| Generation.RetryWaitsAtMost15 | rag_pipeline.py:183-184 | the loop sleeps at most 15 seconds in total |
| Generation.SumOfDoublings | rag_pipeline.py:184 | the sleeps `2 ** 0 .. 2 ** (n-1)` add up to `2 ** n - 1` |
| Generation.Pow2IsBackoff | rag_pipeline.py:184 | `2 ** attempt` for attempts 0 to 3 is 1, 2, 4, 8 |
| RagPipeline.BuildRagIndex | rag_pipeline.py:26-33 | the text is stored; a tuple sets the metadata, plain text sets it to `{}`; the store is the vector store built from that text, so an index exists iff the text has a word |
| RagPipeline.Normalized | rag_pipeline.py:41 | the normalised query is no longer than the query, holds no capital letter, neither starts nor ends with whitespace, and is empty exactly when the query is all whitespace (which stretch it is, is stated by `NormalizedIsSlice`) |
| RagPipeline.NormalizedIsSlice | rag_pipeline.py:41 | the normalised query is the lower-cased form of a stretch of the query with only whitespace before and after it |
| RagPipeline.NormalizedIdempotent | rag_pipeline.py:41 | normalising twice is normalising once |
| RagPipeline.FirstShortcut | rag_pipeline.py:76-90 | the first shortcut, in the order page, row, column, slide, whose noun and a count word occur in the query and whose key is in the metadata; `None` iff none fires |
| RagPipeline.MetadataAnswer | rag_pipeline.py:76-90 | no shortcut answer iff no shortcut fires, so a missing key falls through |
| RagPipeline.ShortcutPrecedence | rag_pipeline.py:76-90 | the shortcut that fires first in the order page, row, column, slide gives the answer |
| RagPipeline.PageCountAnswered | rag_pipeline.py:76-78 | a page-count question with a recorded page count gets "**The document has N pages.**" |
| RagPipeline.GetAnswer | rag_pipeline.py:35-186 | the no-document reply iff nothing was loaded; the not-indexed route gives "Document not indexed yet. Please wait or re-upload." and the no-content route gives "No relevant content found in the document."; the model is called only on the image and search steps, at most five times; only the search step passes context, and all of it comes from usable search labels; the search runs only with an index; the image reply is the image answer to the first call, a shortcut's or the counter's reply is their answer to the normalised query, and the model's reply is the retry loop's, with the retrieved chunks as context |
| RagPipeline.Search | rag_pipeline.py:152-186 | no index gives "Document not indexed yet…"; an empty retrieval (and only that) gives "No relevant content found…"; neither calls the model; the model step has the retrieved chunks as its non-empty context, and its reply, calls and sleeps are those of the retry loop |
| RagPipeline.NothingUploaded | rag_pipeline.py:38-39 | before any upload every question gets "Please upload a document first." and no model call |
| RagPipeline.UploadedDocumentIsLoaded | rag_pipeline.py:26-39 | after `build_rag_index` the no-document guard never fires |
| RagPipeline.ImageOverridesEverything | rag_pipeline.py:43-73 | for an image only the image step runs: given the same model reply, the answer is the image answer to the first call whatever the question and the search labels |
| RagPipeline.MetadataRoute | rag_pipeline.py:75-90 | for a loaded non-image document a firing shortcut is the reply |
| RagPipeline.AttendanceRoute | rag_pipeline.py:92-149 | the attendance route is taken iff a document is loaded, it is not an image, no shortcut fires and the counter answers, and then the reply is the counter's summary |
| RagPipeline.GeneratedRoute | rag_pipeline.py:151-186 | the model answers iff a document is loaded, it is not an image, no shortcut fires, the counter does not answer and the search finds chunks; then the context is the retrieved chunks and the reply is that of the first successful call among five, or the apology after five failures and sleeps of 1, 2, 4 and 8 seconds |
| RagPipeline.BlankDocumentNotSearched | rag_pipeline.py:152-153 | a document without words has no index, so a question no earlier step answers is refused with "Document not indexed yet. Please wait or re-upload." and never reaches the search or the model |
| RagPipeline.EmptyRetrievalNoCall | rag_pipeline.py:155-157 | an empty retrieval gives "No relevant content found in the document." with no model call |
| App.TokensHaveNoSpace | app.py:67-82 | the two-word greeting and goodbye entries never equal a `split()` token |
| App.GreetingIff | app.py:70-74 | a greeting is a whole-query greeting entry, or at most three tokens including a one-word greeting, the rest greetings, "," or "!" |
| App.ThisBlocksThanks | app.py:77-78 | the blockers are substrings: a thank-you containing "this" contains "is" and is not thanks |
| App.GoodbyeIff | app.py:81-82 | a goodbye is at most four tokens with one of "bye", "goodbye", "tata"; "see you" and "take care" never match |
| App.SocialRepliesSkipRouter | app.py:84-89 | a social reply does not depend on the document, the search or the model, and has no closing sentence |
| App.BlockedByPrefix | app.py:94-98 | an answer that begins with a blocker in any letter case gets no closing sentence |
| App.NoSuffixWithoutDocument | app.py:90-98 | with no document loaded, every question that is not social gets exactly "Please upload a document first.", without the closing sentence |
| App.NoSuffixOnImageError | app.py:90-98 | when the model call fails on an image, a question that is not social gets exactly "Error analyzing image: " and the error, without the closing sentence |
| App.NoSuffixOnNoContent | app.py:90-98 | when the search finds nothing, a question that is not social gets exactly "No relevant content found in the document.", without the closing sentence |
| App.LastN | app.py:104 | the last n elements, or all of them when there are fewer, in order |
| App.AppendTurn | app.py:100-104 | after an exchange the history holds `min(len + 2, 50)` messages: the last 50 of the old history plus the question and the answer, which come last |
| App.ReplayKeepsLastMessages | app.py:100-104 | after any number of exchanges the history is the last 50 of all messages, in order |
| App.Replay | app.py:100-104 | after at least one exchange, or from a history within the cap, the history holds at most 50 messages |
| App.LastNOfLastN | app.py:103-104 | cutting the history before an append changes nothing once it is cut again |

## Left out

- Embeddings and FAISS, that is sentence-transformer encoding, normalisation, `IndexFlatL2` and `search` (floating point and a foreign library). The search result is the parameter `labels`, and the index is only present or absent.
- The chat-completion client and the prompt texts (network). Each call's result comes from the parameter `oracle`, and the prompts are not modelled.
- `time.sleep`: the sleeps are returned as data in `Reply.delays`.
- `st.secrets`, the API key check and the module-level client (configuration).
- `document_loader.py` is not part of this model. A document arrives as text, or as text plus a metadata map.
- The Streamlit page: upload handling, the welcome message, rendering of the last 50 messages (app.py:58-61), spinners and `st.rerun`.
- The module-level globals of rag_pipeline.py are a `Session` value passed in and returned, not shared mutable state.
- Text.Lower: lower-cases only A to Z, not the rest of Unicode, because Python's full case tables are out of scope. Every keyword the code compares against is ASCII. Python's `lower()` also maps a few non-ASCII capitals onto ASCII letters, though: U+212A KELVIN SIGN becomes `k`, and U+0130 becomes `i` followed by a combining dot. So a header cell such as `REMAR` + U+212A is found by the source's header search (rag_pipeline.py:110) but not by this model.
- Text.NonBlankLines: `splitlines()` is modelled as a cut at every line-break character. It differs from Python only by empty pieces (after a final break, between `\r` and `\n`), and the blank-line filter drops those.
- Attendance.Cells: the `re.split(r'\s{2,}|\t')` splitter is modelled by its leftmost, greedy matching. Its contract states only that there is at least one cell; the properties are in `CellsSingleSpaced`, `CellsOfJoinTabs` and `CellsWithoutSeparator`.
- VectorStore.ChunkText: the overlap is a natural number. Python also accepts a negative overlap, which makes the stride longer than the window so words between windows are skipped; no caller passes one, as both use the defaults.
- Text.Words: its contract states only that every token is non-empty and free of whitespace; the round trip is `WordsOfJoin` and the empty case `WordsEmptyIffAllSpace`.
- Attendance.AttendanceAnswer: only the guard is in its contract. The full answer is characterised by `AttendanceAnswerIff`, `TableTally` and `Summary`.
- Generation.Retry: the call's `max_tokens`, `temperature` and `stop` arguments are not modelled; they only shape the oracle's answers.
