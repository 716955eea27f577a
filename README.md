# A verified model of a textbook RAG backend

This project models in Dafny the core of a retrieval-augmented question
answering backend for an online textbook. It covers three parts:

- **The text chunker** (`backend/app/utils/text_chunking.py`), in `Chunking.dfy`:
  - `chunk_text` normalises whitespace and cuts greedy windows of at most `chunk_size` characters.
    A window ends just after a space or sentence terminator found in a trailing sub-window, provided that break lies past the midpoint.
    Each later window restarts `overlap` characters before the previous cut.
    Fragments of 50 characters or fewer are then dropped.
  - `chunk_markdown_content` and `chunk_mdx_content` split a document into header-delimited sections.
    They chunk each section and number the chunks within it.
    The MDX variant first splits off a `---` frontmatter block and reads a title and a `sidebar_position` from it.
  - `create_chunks_from_file` dispatches on the file extension.
- **The RAG engine** (`backend/app/services/rag_engine.py`), in `Rag.dfy`:
  - The engine is modelled with the embedding, vector-search and generation services as parameters.
  - Each run returns its result, or the error a service raised, together with the list of service calls it made.
    This lets the model state that a rejected question calls no service, and that an empty search never reaches the generator.
- **The input validators** (`backend/app/utils/validation.py` and the field validators of `backend/app/models/request.py`), in `Validation.dfy` and `Requests.dfy`:
  - A validator returns a verdict or a `Result`. A raised `ValueError` becomes a `Failure` carrying its message.

Shared modules:
- `Text.dfy` models the Python string operations the code relies on: `str.isspace` and `\s`, `strip`, `lstrip`/`rstrip`, `split`/`join`, `startswith`/`endswith`, `find`, and ASCII case mapping.
- `Wrappers.dfy` holds `Option` and `Result`.

Imperative code stays imperative:
- `chunk_text`'s `while` loop, the section loop, the per-section numbering loops and the engine's context-building loops are methods with loops.
- Each such method is proved equal to a specification function: `Chunks`, `Sections`, `Annotate`, `DirectAnswer` and `SelectionAnswer`.
- The properties are proved as lemmas about those functions.

Two definitions differ in form from the code, and are proved equal to it:
- The window end `Chunking.Cut` is specified by one backwards scan for any break character. `Chunking.CutIsBreakRule` proves it equal to the code's maximum of four `rfind`s, which `Chunking.WindowEnd` computes.
- Header detection and the header label are written with recursive `lstrip`/`rstrip`-style scans. `Chunking.IsHeaderLineIsStripHash` and `Chunking.HeaderLabelIsStrip` prove them equal to the code's `strip` expressions.

Where the code does something other than what one would expect from its comments or from the rest of the system, the model follows the code:
- **MDX title:** the title pattern `title:\s*["']?(.*?)["']?` ends its lazy group at once, so any frontmatter that mentions `title:` yields the empty title, not the written one (`Chunking.TitleOf`). `Chunking.WrittenTitle` is the reading evidently intended; the records use the code's.
- **Short chunks:** every chunk of 50 characters or fewer is dropped, including the last one of a section.
- **Health report:** the report's keys are `cohere_api`, `qdrant_db` and `overall`.

## Model

| member | source | states |
|---|---|---|
| Chunking.Normalize | backend/app/utils/text_chunking.py:25 | whitespace runs collapse to one space: the result is never longer, is empty only for empty input, starts with whitespace iff the input does, holds no two whitespace characters in a row, and its only whitespace is `' '` |
| Chunking.NormalizeLast | backend/app/utils/text_chunking.py:25 | normalisation keeps whether the text ends in whitespace |
| Chunking.NormalizeWords | backend/app/utils/text_chunking.py:25 | `split()` of the normalised text equals `split()` of the text: no word is merged, split, lost or invented |
| Chunking.NormalizeKeepsVisible | backend/app/utils/text_chunking.py:25 | normalisation keeps every non-whitespace character, in order, and adds none |
| Chunking.RFindLast | backend/app/utils/text_chunking.py:42-45 | `rfind(c, start, end)` with Python's clamping of negative and oversized bounds: -1 or an index of `c` in the clamped range, with no `c` after it in that range, and -1 only when the range holds no `c` |
| Chunking.LargestFoundIsMax | backend/app/utils/text_chunking.py:47 | `max` of the found indices with default -1: -1 iff nothing was found, otherwise a found index no smaller than any other |
| Chunking.BreakPointIsRightmost | backend/app/utils/text_chunking.py:42-47 | the largest of the four searches is the rightmost space, `.`, `!` or `?` in chunk indices [chunk_size-200, chunk_size-100) (clamped), and -1 iff there is none |
| Chunking.Cut | backend/app/utils/text_chunking.py:49-57 | a window that does not reach the end of the text ends after its start and at most `chunk_size` characters on |
| Chunking.CutIsBreakRule | backend/app/utils/text_chunking.py:39-57 | the cut is the code's: one past the four-`rfind` break point when that lies past `chunk_size // 2`, and `start + chunk_size` otherwise |
| Chunking.CutRule | backend/app/utils/text_chunking.py:42-57 | a short cut falls just after a break character that lies in the sub-window past `chunk_size // 2`, with no break character after it in the sub-window; a full-length cut means no such break character exists |
| Chunking.CutAdvances | backend/app/utils/text_chunking.py:30-57 | under `Progresses` every restart `cut - overlap` lies strictly after the window's start, so the loop terminates |
| Chunking.Windows | backend/app/utils/text_chunking.py:30-57 | the windows from `start` are empty iff `start` is at or past the end of the text; otherwise the first starts at `start` and is non-empty |
| Chunking.WindowsWithin | backend/app/utils/text_chunking.py:30-57 | every raw window is a non-empty slice of the normalised text of at most `chunk_size` characters, and starts strictly increase |
| Chunking.WindowsOverlap | backend/app/utils/text_chunking.py:30-57 | the first window starts at 0, the last ends at the end of the text, and each later window starts exactly `overlap` characters before the previous window's cut |
| Chunking.WindowsShareOverlap | backend/app/utils/text_chunking.py:51-57 | the last `overlap` characters of each raw window equal the first `overlap` characters of the next |
| Chunking.KeepSubstantialMembers | backend/app/utils/text_chunking.py:60 | the kept chunks are exactly the stripped fragments longer than 50 characters |
| Chunking.KeepSubstantialStripped | backend/app/utils/text_chunking.py:60 | every kept chunk is stripped and longer than 50 characters |
| Chunking.KeepSubstantialBounds | backend/app/utils/text_chunking.py:60 | stripping keeps a fragment's length bound and its lack of whitespace runs |
| Chunking.Chunks | backend/app/utils/text_chunking.py:21-60 | a blank text has no chunks, and there are never more chunks than raw windows |
| Chunking.ChunksShape | backend/app/utils/text_chunking.py:21-60 | a blank text has no chunks; each chunk is stripped, longer than 50 and at most `chunk_size` characters, and has no two whitespace characters in a row |
| Chunking.ChunkText | backend/app/utils/text_chunking.py:9-62 | the loop returns exactly `Chunks(text, chunk_size, overlap)`, with the shape properties above |
| Chunking.CutWindows | backend/app/utils/text_chunking.py:27-57 | the `while` loop appends exactly the slices of the windows `Windows` describes |
| Chunking.WindowEnd | backend/app/utils/text_chunking.py:39-57 | the break heuristic computes the cut `Cut` describes |
| Chunking.IsHeaderLineIsStripHash | backend/app/utils/text_chunking.py:84 | a line is a header line iff its stripped form starts with `#`, that is iff its first non-whitespace character is `#` |
| Chunking.HeaderLabelIsStrip | backend/app/utils/text_chunking.py:92 | the section label is `line.strip('# ').strip()` |
| Chunking.SectionsPartition | backend/app/utils/text_chunking.py:78-102 | the sections' lines concatenated give back the lines; each section is non-empty; only its first line may be a header line, and it must be one unless it is the first section; its label is that line's `strip('# ').strip()`, or "Introduction" |
| Chunking.SplitSections | backend/app/utils/text_chunking.py:78-102 | the line loop with its final flush computes `Sections(lines)`, which partitions the lines as above |
| Chunking.SectionsCoverDocument | backend/app/utils/text_chunking.py:78-102 | joining all sections' lines with newlines gives back the document |
| Chunking.NumberLayout | backend/app/utils/text_chunking.py:104-116 | the records are the sections' chunks in section order; chunk `i` of section `k` has `chunk_index` `i` and `total_chunks` equal to that section's chunk count |
| Chunking.NumberKind | backend/app/utils/text_chunking.py:106-199 | every record carries the document kind's metadata: section-only for Markdown (lines 106-116), and the same title and chapter number on every MDX record (lines 180-199) |
| Chunking.NumberSection | backend/app/utils/text_chunking.py:108-116 | the `enumerate` loop builds exactly one section's numbered records |
| Chunking.ChunkSections | backend/app/utils/text_chunking.py:105-116 | the per-section loop returns exactly `Annotate`: each section's `chunk_text` chunks, numbered |
| Chunking.ChunkMarkdown | backend/app/utils/text_chunking.py:65-118 | `chunk_markdown_content` returns `MarkdownChunks(content)`, and every record has section metadata |
| Chunking.SplitFrontmatter | backend/app/utils/text_chunking.py:138-142 | without frontmatter the main content is the whole content; with it the content starts with `---` and its length is the frontmatter's plus the main content's plus two delimiters |
| Chunking.FrontmatterSplit | backend/app/utils/text_chunking.py:138-142 | frontmatter exists iff the content starts with `---` and `---` occurs again at index 3 or later; then the content is `---` + frontmatter + `---` + main, the frontmatter holding no delimiter; otherwise main is the whole content |
| Chunking.TitleOf | backend/app/utils/text_chunking.py:145-149 | the title is either "" or "Unknown Chapter", never the text written after `title:` |
| Chunking.TitleOfDiscardsValue | backend/app/utils/text_chunking.py:145-149 | the title is "" iff there is frontmatter and `title:` occurs in it, and "Unknown Chapter" otherwise |
| Chunking.TitleOfIntro | backend/app/utils/text_chunking.py:145-149 | the frontmatter line `title: "Intro"` gives the title "", and `Chunking.WrittenTitle` reads "Intro" from it |
| Chunking.WrittenTitleReadsValue | backend/app/utils/text_chunking.py:145-149 | the corrected title reading returns exactly the text after the first `title:` of the frontmatter, on whichever line it stands, past any spaces or tabs, bare or in single or double quotes, up to the end of its line; quotes inside the title are kept |
| Chunking.WrittenTitleAfterSidebar | backend/app/utils/text_chunking.py:145-149 | the corrected reading finds the title "Intro" in the Docusaurus frontmatter `sidebar_position: 1` / `title: Intro` |
| Chunking.WrittenTitleDefault | backend/app/utils/text_chunking.py:145-149 | without `title:` the corrected reading and the code both give "Unknown Chapter" |
| Chunking.SidebarFromNone | backend/app/utils/text_chunking.py:192-194 | `re.search` for `sidebar_position:\s*\d+` finds nothing iff there is no match at any index |
| Chunking.SidebarFromLeftmost | backend/app/utils/text_chunking.py:192-194 | a number found is the whole digit run of the leftmost match |
| Chunking.MdxMetadata | backend/app/utils/text_chunking.py:145-194 | every MDX record has title "Unknown Chapter", or "" when non-empty frontmatter mentions `title:`; it carries a `chapter_number` iff non-empty frontmatter has a `sidebar_position` match |
| Chunking.ChunkMdx | backend/app/utils/text_chunking.py:121-201 | `chunk_mdx_content` returns `MdxChunks(content)` |
| Chunking.CreateChunksFromFile | backend/app/utils/text_chunking.py:219-226 | the dispatch on the lower-cased extension: `.mdx` to the MDX chunker, `.md`/`.markdown` to the Markdown chunker, anything else to `chunk_text` |
| Chunking.FileChunksKind | backend/app/utils/text_chunking.py:219-226 | the extension decides the record kind: chapter metadata for `.mdx`, section metadata for `.md` and `.markdown`, the path as source for anything else |
| Chunking.StalledRestart | backend/app/utils/text_chunking.py:49-57 | with `chunk_size` 1000 and overlap 1000, a window with no break character in its search range restarts at its own start |
| Chunking.PlainFileChunks | backend/app/utils/text_chunking.py:223-226 | a plain file yields one record per `chunk_text` chunk, in order, each tagged with the path as its source |
| Validation.ValidateTextLength | backend/app/utils/validation.py:6-24 | false iff the text is empty, shorter than `min_length` once stripped, or longer than `max_length` as given |
| Validation.ValidateSelectionText | backend/app/utils/validation.py:27-46 | valid iff non-blank, at least 10 characters stripped and at most 5000 as given; blank, short and long each give their own message, checked in that order |
| Validation.ValidateQuestionText | backend/app/utils/validation.py:49-68 | valid iff non-blank and at most 1000 characters as given; blank and long give their messages; the "at least 1 character" message never occurs |
| Validation.SelectionIsTextLength | backend/app/utils/validation.py:37-46 | the selection validator accepts exactly what `validate_text_length(s, 10, 5000)` accepts |
| Validation.QuestionIsTextLength | backend/app/utils/validation.py:59-68 | the question validator accepts exactly what `validate_text_length(q, 1, 1000)` accepts |
| Validation.ValidateTokenLength | backend/app/utils/validation.py:88-102 | `len(text) // 4 <= max_tokens` holds iff `len(text) < 4 * (max_tokens + 1)` |
| Validation.TokenLengthMonotone | backend/app/utils/validation.py:100-102 | a text no longer than one within the limit is within it |
| Validation.MatchFrom | backend/app/utils/validation.py:82 | the regex alternation at a position: 0 iff no alternative matches there, ignoring case; otherwise the length of the first alternative in list order that matches |
| Validation.Strike | backend/app/utils/validation.py:82 | one left-to-right `re.sub` pass never makes the text longer |
| Validation.StrikeSubsequence | backend/app/utils/validation.py:82 | the pass only deletes: its result is a subsequence of the text |
| Validation.StrikeCleanUnchanged | backend/app/utils/validation.py:82 | a text in which no alternative occurs at any index passes through unchanged |
| Validation.SanitizeCleanIsStrip | backend/app/utils/validation.py:71-85 | `sanitize_text` of a text with no keyword in it is its `strip()` |
| Validation.SanitizeText | backend/app/utils/validation.py:71-85 | `sanitize_text` returns a stripped text no longer than its input |
| Validation.StrikeFixedIsClean | backend/app/utils/validation.py:82 | a pass that deletes nothing leaves no alternative anywhere in the text |
| Validation.SinglePassLeavesKeyword | backend/app/utils/validation.py:82-85 | `sanitize_text("ddroprop")` returns a text beginning with the keyword `drop` |
| Validation.ExecuteNeverWhole | backend/app/utils/validation.py:82 | no match deletes 7 characters: wherever `execute` occurs, its prefix `exec` is matched first |
| Validation.ExecuteMatchedWhole | backend/app/utils/validation.py:82 | with `execute` listed before `exec`, an occurrence of `execute` is matched whole |
| Validation.Purge | backend/app/utils/validation.py:82 | repeating the pass until it deletes nothing leaves no alternative anywhere, and never lengthens the text |
| Validation.SanitizeWith | backend/app/utils/validation.py:82-85 | removal to a fixpoint followed by `strip()` gives a stripped text, no longer than the input, with no alternative left in it |
| Validation.SanitizeFullyIsClean | backend/app/utils/validation.py:82-85 | the corrected sanitiser's output contains none of the ten keywords, in any letter case |
| Requests.ValidateQuestion | backend/app/models/request.py:12-19 | succeeds iff non-blank and at most 1000 characters as given; blank and long raise their messages, checked in that order; an accepted question is stored stripped, non-empty and at most 1000 characters; the "at least 1 character" error never occurs |
| Requests.ValidateSelection | backend/app/models/request.py:30-37 | succeeds iff non-blank and at most 5000 characters as given; blank and long raise their messages; an accepted selection is stored stripped and non-empty; the "at least 1 character" error never occurs |
| Requests.ValidateQuestionOptional | backend/app/models/request.py:40-45 | `None` passes unchanged; a present question is stripped and refused iff its stripped length exceeds 1000 |
| Requests.QuestionIdempotent | backend/app/models/request.py:12-19 | validating a stored question again stores the same question |
| Requests.SelectionIdempotent | backend/app/models/request.py:30-37 | validating a stored selection again stores the same selection |
| Requests.QuestionOptionalIdempotent | backend/app/models/request.py:40-45 | validating a stored optional question again stores the same value |
| Requests.QuestionAgreesWithTextValidator | backend/app/models/request.py:12-19 | the request model and `validate_question_text` accept the same questions and refuse them for the same reason |
| Requests.SelectionRequestIsLaxer | backend/app/models/request.py:30-37 | every selection `validate_selection_text` accepts passes the request model; a non-blank selection under 10 stripped characters passes the request model but not `validate_selection_text` |
| Requests.PaddedQuestion | backend/app/models/request.py:40-45 | a question whose stripped form has at most 1000 characters but which is longer as given passes the optional validator and fails the required one |
| Requests.BlankOptionalQuestion | backend/app/models/request.py:40-45 | a blank optional question is accepted and stored as `""` |
| Rag.LabelInjective | backend/app/services/rag_engine.py:62-68 | segments without a `source` get the same label iff they have the same id |
| Rag.DirectAnswer | backend/app/services/rag_engine.py:20-101 | a run makes at most three service calls, the first being the embedding of the question, and ends in an error only after calling a service |
| Rag.GenerateAnswer | backend/app/services/rag_engine.py:20-101 | the method returns exactly `DirectAnswer`: its result and its service calls |
| Rag.DirectRejection | backend/app/services/rag_engine.py:34-44 | no service is called iff `validate_question_text` refuses the question; the answer is then that validator's message, with no sources |
| Rag.NoSupportWithoutGeneration | backend/app/services/rag_engine.py:55-59 | an empty search result gives exactly the "No supporting information" answer, with no sources, after an embed and a top-5 search, and the generator is never called |
| Rag.SourcesIffGenerated | backend/app/services/rag_engine.py:55-97 | an answer cites sources iff the generator was called |
| Rag.DirectGeneration | backend/app/services/rag_engine.py:61-97 | with segments retrieved, the calls are embed(question), search(top 5) and generate(question, contents joined with blank lines, 200); the context starts with the first content; the answer is the generator's text unchanged, with one label per segment in retrieval order; a generator error propagates |
| Rag.DirectFailures | backend/app/services/rag_engine.py:46-101 | an embedding or search error ends the run with that error, and no later service is called |
| Rag.BuildContext | backend/app/services/rag_engine.py:147-153 | the loop builds the selection followed by each qualifying segment's content, joined with blank lines, as `SelectionContext` |
| Rag.SelectionAnswer | backend/app/services/rag_engine.py:103-181 | a run makes at most three service calls and ends in an error only after calling a service |
| Rag.GenerateAnswerForSelection | backend/app/services/rag_engine.py:103-181 | the method returns exactly `SelectionAnswer`: its result and its service calls |
| Rag.ShortSelection | backend/app/services/rag_engine.py:122-128 | a selection under 10 stripped characters with a non-empty question makes the direct run's calls and returns its answer text or its error; without one it returns the fixed "too short" text and calls nothing |
| Rag.RewrittenQuestion | backend/app/services/rag_engine.py:131-134 | without a question, the question is "Can you explain this: " + selection; with one, it is "Regarding this text: '" + selection + "', " followed by the question, equal to it up to case, lower-cased throughout when its first character is a capital, and unchanged otherwise |
| Rag.Qualifying | backend/app/services/rag_engine.py:147-151 | no more contents are added than segments were retrieved |
| Rag.QualifyingMembers | backend/app/services/rag_engine.py:147-151 | a content is added to the context iff some retrieved segment has that content, differs from the selection and is longer than 10 characters |
| Rag.QualifyingEmpty | backend/app/services/rag_engine.py:147-151 | nothing is added iff no retrieved segment qualifies |
| Rag.SelectionContextShape | backend/app/services/rag_engine.py:147-153 | the context starts with the selection, and is the selection alone iff no segment qualifies |
| Rag.SelectionGeneration | backend/app/services/rag_engine.py:137-162 | a long enough selection always reaches the generator, even after an empty search; the calls are embed(selection + " " + question), search(top 3) and generate(question, context, 200); the context starts with the selection; the generator's text or error is returned unchanged |
| Rag.SelectionFailures | backend/app/services/rag_engine.py:136-181 | with a long enough selection, an embedding or search error ends the run with that error, and no later service is called |
| Rag.HealthCheck | backend/app/services/rag_engine.py:183-197 | the report carries each probe's outcome, and `overall` holds iff both probes succeed |

## Left out

- **File reading:** `create_chunks_from_file` reads the file. The model takes the file's content as a parameter.
- **Logging and timing:** the model leaves out logging, the wall-clock measurement and the 1.5 s warning threshold. None of them affects a result.
- **Async:** `async`/`await` is modelled as sequential calls.
- **The engine's token-length check:** it only logs, so the model has no step for it. `Validation.ValidateTokenLength` models the check itself.
- **The services:**
  - The embedding, Qdrant and Cohere clients are abstract functions.
  - Embedding vectors are opaque sequences of reals.
  - There is no cosine similarity model, and a segment's `score` is not modelled.
- **Segment metadata:** only its `source` entry is modelled, as an optional string.
  - `str(hit.id)` is taken as the segment's id text.
- **The health probes:** their own catching of errors is taken as given, so each probe is a boolean.
  - The HTTP handler reads a `gemini_api` key that the engine never produces. That transport-level mismatch is not part of this model.
- **Case mapping:** `str.lower`, `str.isupper`, the `(?i)` flag and the lower-casing of file paths are modelled on ASCII letters only. Unicode case folding is not modelled.
- **Digits and whitespace:**
  - `\d` and `int()` in the `sidebar_position` pattern are modelled on ASCII digits.
  - Whitespace (`\s`, `strip`, `isspace`) uses Python's exact `str.isspace` set.
- Chunking.ChunkText: requires `Progresses(chunk_size, overlap)`, which the source does not state. Outside it the loop can fail to advance: with an overlap of at least `chunk_size`, or a break accepted fewer than `overlap` characters past the start, the next window starts at or before the current one. The model covers only parameters under which every text terminates; `Chunking.StalledRestart` exhibits a stalled restart (see Findings).
- Chunking.CutWindows, Chunking.ChunkSections, Chunking.ChunkMarkdown, Chunking.ChunkMdx, Chunking.CreateChunksFromFile: the same `Progresses` precondition, for the same reason.
- Chunking.WindowsOverlap: the overlap lemmas also require `overlap >= 0`. A negative overlap makes later windows skip characters rather than share them.
- **Pydantic:** it wraps a validator's `ValueError` in its own `ValidationError`. Only the message is modelled.

## Findings

| source | as written | input that shows it | evidently intended | confidence | as-written member | corrected member |
|---|---|---|---|---|---|---|
| backend/app/utils/validation.py:82-85 | Keywords are deleted in a single left-to-right pass, so deleting one keyword can join its neighbours into another keyword, which survives | `"ddroprop"` sanitises to `"drop"` | the sanitised text contains none of the listed keywords | not executed | Validation.SinglePassLeavesKeyword | Validation.SanitizeFullyIsClean |
| backend/app/utils/text_chunking.py:147-149 | The lazy group of `title:\s*["']?(.*?)["']?` matches the empty string, as everything after it is optional | frontmatter `title: "Intro"` gives the title `""` | the title is the text written after `title:`, without its quotes | not executed | Chunking.TitleOfIntro | Chunking.WrittenTitleReadsValue |
| backend/app/utils/text_chunking.py:51-57 | The restart `start = actual_end - overlap` is not checked to advance, so an overlap of at least `chunk_size` never ends the loop on any text longer than `chunk_size` (no restart lies past the first window's start) | `chunk_size=1000`, `overlap=1000`, for instance 1001 characters with no space, `.`, `!` or `?` | every window starts after the previous one, so the loop ends | not executed | Chunking.StalledRestart | Chunking.CutAdvances |
| backend/app/utils/validation.py:82 | `exec` is listed before `execute` in the alternation, so the `execute` alternative never matches, and `"execute"` becomes `"ute"` | `"execute"` | `execute` is removed whole | not executed | Validation.ExecuteNeverWhole | Validation.ExecuteMatchedWhole |
