# Qxam in Dafny

Qxam turns a PDF into study questions. It reads the PDF's text page by page,
cleans it and cuts it into overlapping windows of words. It feeds each window
to a T5 question-generation model and filters what the model says. From
those questions it can build a multiple-choice exam and grade the answers.
A memory monitor shrinks the word windows when the system runs short of
memory.

This project models that logic in Dafny and proves properties of it:

- `text.dfy` (module `Text`): the Python string and path operations the code
  relies on. These are `isspace`, `strip`, `split()`, `split(sep)`, `join`,
  `lower`, `startswith`, and `Path.name` / `suffix` / `stem`.
- `memory_optimizer.dfy` (`MemoryOptimizer`): the memory monitor's
  decisions, as pure functions of a `MemorySnapshot`.
- `pdf_cleaning.dfy` (`PdfCleaning`): `_clean_text`.
- `pdf_extraction.dfy` (`PdfExtraction`): `extract_text_from_pdf`,
  `get_pdf_metadata` and `validate_pdf`. The PDF library's answers about a
  path are a `PdfDocument` value.
- `pdf_chunking.dfy` (`PdfChunking`): the word-window geometry of
  `create_text_chunks` and the chunks it yields.
- `pdf_processor.dfy` (`PdfStreaming`): the `PdfProcessor` class, with its
  chunking loop and record stream.
- `question_rules.dfy` (`QuestionRules`): the rules behind the question
  generator, as functions. These cover model selection, the sentence split,
  the English and Spanish candidate filters, and the filter/dedup loop. They
  also cover the answer and distractor rules, and grading.
- `question_generator.dfy` (`QuestionGeneration`): the `QuestionGenerator`
  class. Its methods are proved against those functions.
- `cli.dfy` (`Cli`): `generate_questions_cli`. This covers its exits with
  status 1, the question-gathering loop over the chunk stream, and the
  decisions about saving.
- `wrappers.dfy`: `Option`, `Result`, `Min`, `Max`.

The language model is a function `generator: string -> seq<string>` from
prompt to candidate texts. Whether loading it succeeds is a flag,
`loadable`. Both are fixed when a `QuestionGenerator` is built. Three calls
are nondeterministic choices: `random.sample` (a draw without replacement),
`random.shuffle` (a permutation) and difflib's closest match (any qualifying
sentence, or none).

Where the code and its documentation differ, the model follows the code:

- An exam entry is not padded to `num_options`. When the chunk has fewer
  distractor sentences, the entry simply has fewer options
  (`QuestionRules.ExamItemOptions`).
- Extraction can succeed with the empty text. A page that is not blank but
  cleans to 10 characters or fewer contributes `""`
  (`PdfExtraction.ShortSinglePageGivesEmptyText`).
- The default of `--model` is `distilgpt2`, which is not a supported model.
  A run without `--model` therefore uses the Spanish default model
  (`Cli.CliDefaultsResolve`).
- `_clean_text` deletes every character from U+007F to U+00FF. That range
  includes the Latin-1 letters á, é, ñ, ¿ and ¡, so cleaned text never holds
  them (`PdfCleaning.RemoveControlChars`).
- A negative `--num-questions` is not rejected. The slice `[:n]` then drops
  the last `-n` questions of the first chunk, and no further chunk is read
  (`Cli.NegativeCountTruncatesFirstChunk`).

## Model

| member | source | states |
|---|---|---|
| Text.WordsAreWords | src/pdf_processor.py:124 | `split()` yields non-empty words without whitespace |
| Text.WordsAppend | src/pdf_processor.py:124 | `split()` of two strings, the second starting with whitespace, is the words of the first followed by the words of the second |
| Text.StripJoinedWords | src/pdf_processor.py:137-141 | words joined by single spaces are already stripped: `strip()` leaves the chunk text unchanged |
| Text.StemThenSuffix | main.py:248 | a path's stem followed by its suffix is its name, and a non-empty suffix holds exactly one dot |
| Text.JoinedPathName | main.py:255-258 | joining a directory and a plain file name gives a path whose name is that file name |
| MemoryOptimizer.CheckMemoryLimitMonotone | src/memory_optimizer.py:61-78 | less process memory and a lower system percentage never turn "room left" into "near the limit" |
| MemoryOptimizer.CheckMemoryLimitBoundaries | src/memory_optimizer.py:68-78 | both limits of the memory check are strict: with the default ceiling, exactly 3225.6 MB and exactly 90% still leave room, and 3225.7 MB or 90.5% do not |
| MemoryOptimizer.DefaultProcessThreshold | src/memory_optimizer.py:70 | with the default 3.5 GB ceiling, the process counts as near the limit above 3225.6 MB |
| MemoryOptimizer.ShouldReclaim | src/memory_optimizer.py:87 | memory is reclaimed when forced, when the process is above 90% of its ceiling, or when the system is above 90% used; it is skipped only when not forced and the memory check reports room left |
| MemoryOptimizer.GetOptimalBatchSize | src/memory_optimizer.py:131-150 | 1 below 1 GB available, half the base (at least 1) from 1 GB to below 2 GB, the base from 2 GB, and always within [1, base] for a base of at least 1 |
| MemoryOptimizer.BatchSizeMonotone | src/memory_optimizer.py:141-150 | more available memory never gives a smaller batch |
| MemoryOptimizer.GetOptimalChunkSizeAsWritten | src/memory_optimizer.py:152-171 | as written: half the base above 80%, the base otherwise, whatever the document length |
| MemoryOptimizer.AsWrittenNeverQuarters | src/memory_optimizer.py:166-169 | above 90% the code halves any base of at least 2, which is more than the intended quarter; at 95% a base of 512 gives 256, not 128 |
| MemoryOptimizer.GetOptimalChunkSize | src/memory_optimizer.py:152-171 | corrected order: the base up to 80%, half up to 90%, a quarter above, never above the base nor below its quarter |
| MemoryOptimizer.ChunkSizeExamples | src/memory_optimizer.py:165-171 | 512 at 70%, 256 at 85%, 128 at 95% |
| MemoryOptimizer.ChunkSizeNonIncreasing | src/memory_optimizer.py:165-171 | higher system use never gives a larger chunk size |
| MemoryOptimizer.ChunkSizeCanBeZero | src/memory_optimizer.py:166-167 | under pressure a base of 1 becomes 0, in the code as written and in the corrected order |
| MemoryOptimizer.DefaultChunkSizeExceedsOverlap | src/memory_optimizer.py:152-171 | the default base of 512 never drops below 256 as written (128 in the corrected order), so it always exceeds the overlap of 50 |
| PdfCleaning.RemoveControlChars | src/pdf_processor.py:92 | the result holds no character from U+0000-U+0008, U+000B, U+000C, U+000E-U+001F or U+007F-U+00FF, and text without them is unchanged |
| PdfCleaning.CollapseNormalizes | src/pdf_processor.py:95 | after the whitespace rewrite, every whitespace character is a single ' ' |
| PdfCleaning.CollapseKeepsNoStrippedControl | src/pdf_processor.py:92-95 | the whitespace rewrite brings back none of the deleted characters |
| PdfCleaning.CollapseFixed | src/pdf_processor.py:95 | text whose whitespace is already single spaces is left unchanged |
| PdfCleaning.PipelineIsOneLine | src/pdf_processor.py:95-106 | the whitespace rewrite removes every newline first, so the line filter sees one line: the result is the stripped text when longer than 10 characters, else "" |
| PdfCleaning.CleanedShape | src/pdf_processor.py:81-106 | cleaned text is "" or one trimmed line over 10 characters, with no deleted character, no newline and only single spaces |
| PdfCleaning.CleanIdempotent | src/pdf_processor.py:81-106 | cleaning cleaned text changes nothing |
| PdfCleaning.CleanText | src/pdf_processor.py:81-106 | the line loop computes the cleaned text, which has the clean-line shape |
| PdfExtraction.MultiplesMembers | src/pdf_processor.py:66-68 | the reclaim points are exactly the multiples of the period in range, in increasing order |
| PdfExtraction.ExtractTextFromPdf | src/pdf_processor.py:33-79 | a missing file fails with FileNotFound before any page is read; an unopenable file or unreadable page fails; otherwise pages that are not blank contribute their cleaned text, joined with "\n\n" in page order; reclaim is checked after every tenth page |
| PdfExtraction.ContributionsAreClean | src/pdf_processor.py:57-64 | every page contribution has the clean-line shape |
| PdfExtraction.ExtractedHasNoStrippedControl | src/pdf_processor.py:57-72 | extracted text holds none of the deleted characters |
| PdfExtraction.MissingFileNotFound | src/pdf_processor.py:47-48 | a missing file gives FileNotFound whatever its pages would hold |
| PdfExtraction.ShortSinglePageGivesEmptyText | src/pdf_processor.py:57-72 | a single page that is not blank but cleans to at most 10 characters extracts to "" |
| PdfExtraction.GetPdfMetadata | src/pdf_processor.py:154-177 | empty metadata exactly when the file cannot be opened; otherwise the page count and the file size in MB (bytes / 1048576) |
| PdfExtraction.ValidatePdf | src/pdf_processor.py:219-247 | valid exactly when the file exists, its suffix is ".pdf" in any case, it opens, it has at least one page, and its first page can be read |
| PdfExtraction.ValidPdfProperties | src/pdf_processor.py:238-243 | a valid PDF never fails extraction with FileNotFound, and a blank first page is as valid as one with text |
| PdfChunking.Windows | src/pdf_processor.py:129-150 | the windows are non-empty and lie inside the word range, and there are some exactly when there are words |
| PdfChunking.WindowsGeometry | src/pdf_processor.py:129-150 | the first window starts at the start; each window but the last has exactly S words and the next starts O words before it ends; the last ends at the word count |
| PdfChunking.WindowsReachEnd | src/pdf_processor.py:132-150 | with an overlap of at least 0, the last window ends at the last word |
| PdfChunking.WindowsConsecutive | src/pdf_processor.py:132-150 | consecutive windows share exactly O words, and every window but the last is full |
| PdfChunking.WindowsCoverAllWords | src/pdf_processor.py:132-150 | every word lies in some window |
| PdfChunking.ShortTextOneWindow | src/pdf_processor.py:132-150 | at most S words give exactly one window, or none for no words |
| PdfChunking.EmittedChunksAreLongTrimmed | src/pdf_processor.py:137-144 | every emitted chunk is over 50 characters and is its own `strip()` |
| PdfChunking.ChunkCountForShortText | src/pdf_processor.py:124-150 | empty text yields no chunk, and text of at most S words yields at most one |
| PdfChunking.LoopFollowsWindows | src/pdf_processor.py:132-150 | when S > O, the loop's start indices are exactly the window starts, and then it stops |
| PdfChunking.LoopNeverEnds | src/pdf_processor.py:132-150 | when S <= O and the text is longer than one window, the start never rises above 0 and the loop never stops |
| PdfStreaming.PdfProcessor.constructor | src/pdf_processor.py:20-30 | keeps the configured window size and overlap |
| PdfStreaming.PdfProcessor.CreateTextChunks | src/pdf_processor.py:108-152 | with the window size that `get_optimal_chunk_size` gives as written, the loop yields exactly the significant windows' texts in order; each is long and trimmed; text of at most that many words gives at most one |
| PdfStreaming.PdfProcessor.ProcessPdfStreaming | src/pdf_processor.py:179-207 | extraction failures propagate; otherwise record i carries id i, the i-th chunk of the extracted text under the window size as written, its length and the same metadata; reclaim is checked after records 0, 5, 10, … |
| PdfStreaming.NumberChunks | src/pdf_processor.py:197-207 | chunk i becomes record i with the metadata and its length, and reclaim is checked when i % 5 == 0 |
| QuestionRules.ResolveModelName | src/question_generator.py:158-163 | the kept name is always supported; it is the requested name exactly when that is supported, else the Spanish default |
| QuestionRules.ResolveIdempotent | src/question_generator.py:158-163 | resolving a resolved name changes nothing |
| QuestionRules.SupportedLanguages | src/question_generator.py:208-213 | the default model is prompted in Spanish, the other two supported models in English |
| QuestionRules.EnglishRejectsTagsInAnyCase | src/question_generator.py:226-238 | the English filter refuses any candidate starting with "context:" or "answer:" in any mix of letter cases |
| QuestionRules.SpanishRejectsEnglishInterrogatives | src/question_generator.py:240-254 | the Spanish filter refuses any candidate starting with "what", "who", "when", "where", "why" or "how" in any mix of letter cases |
| QuestionRules.SplitSentences | src/question_generator.py:198 | the text splits into at least one piece; it is cut after every '.', '!' or '?' that whitespace follows (each piece but the last ends with one, and no piece holds one followed by whitespace), and the pieces joined by spaces have the words of the text, so only the whitespace at the cuts is lost |
| QuestionRules.SentencePiecesUnbroken | src/question_generator.py:198 | no sentence piece holds '.', '!' or '?' followed by whitespace |
| QuestionRules.SentencePiecesKeepWords | src/question_generator.py:198 | the sentence pieces joined by single spaces split into the same words as the text |
| QuestionRules.SentencePiecesEnd | src/question_generator.py:198 | every sentence piece but the last ends with '.', '!' or '?' |
| QuestionRules.AcceptKeeps | src/question_generator.py:223-254 | the candidate loop keeps earlier questions, adds at most one per candidate, and keeps the filters, tags and distinctness |
| QuestionRules.GeneratedWellFormed | src/question_generator.py:199-254 | within one call, every question passes its language's filter, carries type "QG" and the model name, and no two share a text |
| QuestionRules.CollectStopsAtCount | src/question_generator.py:205-206 | once `num` questions are gathered, nothing is added |
| QuestionRules.GeneratedNonPositive | src/question_generator.py:201-206 | a request for 0 or fewer questions gets none |
| QuestionRules.CollectBound | src/question_generator.py:201-254 | with at most 3 candidates per prompt, the loop ends with at most max(gathered, num + 2) questions |
| QuestionRules.GeneratedAtMostTwoOver | src/question_generator.py:201-254 | one call returns at most `num + 2` questions |
| QuestionRules.AcceptAllNew | src/question_generator.py:223-254 | candidates that are stripped, valid, distinct and new are all accepted |
| QuestionRules.OvershootReached | src/question_generator.py:201-254 | the overshoot happens: three fresh valid candidates for the first long sentence give at least 3 questions for a request of 1 |
| QuestionRules.GeneratedIgnoresShortSentences | src/question_generator.py:201-204 | sentences under 30 characters are never prompted: models that agree on prompts of longer sentences give the same questions |
| QuestionRules.LongPiecesShape | src/question_generator.py:125 | every qualifying sentence is stripped and over 10 characters |
| QuestionRules.WithoutMembers | src/question_generator.py:134 | the distractor pool holds exactly the qualifying sentences other than the answer |
| QuestionRules.ExtractAnswerIsAnswer | src/question_generator.py:120-127 | the answer is a qualifying sentence of the context, or "Respuesta no disponible" exactly when there is none |
| QuestionRules.Repeat | src/question_generator.py:135 | `[x] * n` has max(0, n) copies of x |
| QuestionRules.DrawShape | src/question_generator.py:129-136 | a distractor draw holds the fallback text or context sentences other than the answer, at most max(0, n) of them, and exactly min(n, pool size) when the pool is not empty |
| QuestionRules.MakeExamItem | src/question_generator.py:104-113 | the answer plus a draw, in any order, forms an exam entry for the chunk |
| QuestionRules.ExamItemOptions | src/question_generator.py:104-113 | the answer is among the options; the others are the fallback or chunk sentences other than the answer; there are at most max(1, num_options); a short pool is not padded |
| QuestionRules.GradeDetails | src/question_generator.py:65-74 | one detail per zipped pair, in order, marked correct exactly when the selected option equals the answer |
| QuestionRules.CountCorrect | src/question_generator.py:63-68 | the number right is at most the number of details |
| QuestionRules.ScoreRange | src/question_generator.py:75-76 | the score lies in [0, 100], and is 100 exactly when every entry of a non-empty exam is right |
| QuestionRules.PerfectAnswersFullMarks | src/question_generator.py:63-81 | answering every entry right scores 100 |
| QuestionRules.MissingAnswersLoseMarks | src/question_generator.py:65-76 | with fewer answers than entries, the score stays below 100 |
| QuestionRules.AllWrongScoresZero | src/question_generator.py:63-81 | answering every entry wrong scores 0 |
| QuestionGeneration.ExamStateSnoc | src/question_generator.py:100-116 | adding an entry for a new question from the current chunk, when every earlier chunk's questions are already asked, keeps the exam's provenance (each entry built from the first chunk that generated its question), order and distinctness, and the used set |
| QuestionGeneration.TakeNewShortTakesAll | src/question_generator.py:100-116 | a chunk only extends the questions asked, and a chunk that leaves the exam short of `num_questions` has asked every question it generated |
| QuestionGeneration.TakeNewIsPrefix | src/question_generator.py:100-116 | one chunk appends its questions not yet in the exam, in order, and stops once the exam holds `num_questions` |
| QuestionGeneration.ExamQuestionsFromIsPrefix | src/question_generator.py:96-117 | the exam's questions are the first `num_questions` of all chunks' questions in chunk order with repeats dropped, after those already asked |
| QuestionGeneration.Sample | src/question_generator.py:135 | `random.sample` draws k elements without replacement |
| QuestionGeneration.Shuffle | src/question_generator.py:107-108 | `random.shuffle` keeps the same elements |
| QuestionGeneration.PickCloseMatch | src/question_generator.py:124-126 | difflib's pick is one of the sentences, or nothing |
| QuestionGeneration.AcceptGenerated | src/question_generator.py:223-254 | the candidate loop computes the candidate filter and keeps the used set equal to the question texts |
| QuestionGeneration.QuestionGenerator.constructor | src/question_generator.py:158-167 | keeps the resolved model name, with no pipeline loaded |
| QuestionGeneration.QuestionGenerator.LoadModel | src/question_generator.py:170-183 | reports whether loading succeeded; a success leaves the pipeline loaded |
| QuestionGeneration.QuestionGenerator.GenerateQuestionsFromText | src/question_generator.py:186-258 | fails with the load error exactly when no pipeline is loaded and loading fails; otherwise returns the filtered, deduplicated questions of the sentence loop |
| QuestionGeneration.QuestionGenerator.ExtractAnswerFromQuestion | src/question_generator.py:120-127 | the answer is a qualifying sentence, or the placeholder when there is none |
| QuestionGeneration.QuestionGenerator.GenerateDistractors | src/question_generator.py:129-136 | fails exactly when the pool is not empty and n < 0; otherwise it returns a distractor draw |
| QuestionGeneration.QuestionGenerator.BuildExamItem | src/question_generator.py:104-113 | builds an exam entry for the chunk, failing only for a negative number of distractors |
| QuestionGeneration.QuestionGenerator.AddExamItem | src/question_generator.py:101-114 | a new question of the current chunk becomes one entry built from that chunk and is marked used; the exam state is kept; failure only for a negative distractor count |
| QuestionGeneration.QuestionGenerator.AddExamItems | src/question_generator.py:100-116 | the exam is extended, in order, by one entry for each of the chunk's questions not yet asked, until it holds `num_questions`; every new entry is built from this chunk; when the exam is still short afterwards, all of this chunk's questions are used; the exam state is kept; failure only for a negative distractor count |
| QuestionGeneration.QuestionGenerator.GenerateMultipleChoiceExam | src/question_generator.py:83-118 | the exam's questions are exactly the first `num_questions` distinct questions generated chunk by chunk, one request per chunk; each entry is built from the first chunk that generated its question; the pipeline is loaded afterwards exactly when it was before, or when it loads and at least one chunk was asked; it fails with the load error exactly when the pipeline was not loaded, cannot be loaded, at least one question is asked for and there is a chunk; otherwise it fails only on a negative distractor count |
| QuestionGeneration.QuestionGenerator.GradeMultipleChoiceExam | src/question_generator.py:54-82 | the details of the zipped pairs, the number right, the number of entries as the total, and the percentage in [0, 100] |
| Cli.CliDefaultsResolve | main.py:308-321 | without `--model` the Spanish default model is used, and the default count of 10 asks two questions per chunk |
| Cli.QuotaPerChunk | main.py:213 | the per-chunk quota lies in 1..3 |
| Cli.QuotaSteps | main.py:213 | the quota is 1 below 10, 2 from 10 to 14, and 3 from 15 |
| Cli.AggregatedIsPrefix | main.py:206-227 | for n >= 0, the result is the first n questions of all chunk outputs in chunk order, or all of them when the chunks run out |
| Cli.PulledStopsAtCount | main.py:220-227 | a further chunk is read only while fewer than n questions are gathered, and an early stop happens with n reached |
| Cli.NegativeCountTruncatesFirstChunk | main.py:225-227 | a negative n keeps the first chunk's questions minus the last -n, and reads no further chunk |
| Cli.AggregateQuestions | main.py:201-227 | the chunk loop computes that result and reads exactly that many chunks |
| Cli.AcceptsSaveIgnoresSpace | main.py:246-247 | surrounding whitespace does not change the answer to "save?", and an empty answer means no |
| Cli.SaveDecision | main.py:240-259 | every save target is written in the format its suffix selects |
| Cli.SaveDecisionCases | main.py:240-259 | a given output path is always used; otherwise nothing is saved when there are no questions or the answer is not yes; on a yes the typed name, stripped, is used under "output", and a blank name gives the text file "output/preguntas_<stem>.txt" |
| Cli.TxtNameIsText | main.py:74-80 | a plain name ending in ".txt" is written as text |
| Cli.PdfNameIsPdf | main.py:74-80 | a plain name ending in ".pdf" in any letter case is written as a PDF |
| Cli.DefaultFileIsText | main.py:248-258 | the default file is "output/preguntas_<stem>.txt" and is written as text |
| Cli.GenerateQuestionsCli | main.py:151-266 | exit status 1 for a missing file, an invalid PDF, a failed model load or a failed extraction; otherwise the first `num_questions` of the chunks' questions (chunks cut with the default processor's window size as written), and the save decision |

## Left out

- The PDF library (`fitz.open`, `get_text`, metadata, `stat`) is not modelled. A `PdfDocument` value holds what it reports: whether the file exists, whether it opens, each page's text or a read failure, the metadata entries and the size.
- The transformers pipeline is not modelled. It is the function `generator` together with the flag `loadable`. A prompt whose pipeline call raises counts as one with no candidates. Device selection and `max_length` play no part.
- The `pipeline is None` branch inside the sentence loop is not modelled. It cannot be taken once loading has succeeded. `unload_model` and `get_model_info` are not modelled either.
- Similarity scoring in `difflib` is not modelled. The model only knows that the pick is a qualifying sentence or nothing.
- Python's Unicode rules are approximated. Whitespace is exactly the set `str.isspace` accepts. Case applies to ASCII and Latin-1 letters only.
- Floats are Dafny reals, so the model has no rounding.
- psutil reads are a `MemorySnapshot` the caller passes in. Garbage collection, the CUDA cache, environment settings, logging and the `monitor_memory_usage` wrapper are not modelled. The model records where a reclaim check happens, not what it does.
- Console and file I/O are not modelled. That covers printing, argparse, the two prompts (their answers are parameters), `present_multiple_choice_exam`, `save_exam_results`, and the text and PDF writers with their exit on a write error.
- Interrupting the save prompt with KeyboardInterrupt is not modelled.
- The GUI (`src/gui.py`) is not part of this model.
- PdfStreaming.PdfProcessor.CreateTextChunks requires the window size to exceed the overlap. Otherwise, on a text with more words than the window, the source loops forever (`PdfChunking.LoopNeverEnds`). A text with no more words than the window still stops after at most one window, but the model does not cover that case. `PdfStreaming.PdfProcessor.ProcessPdfStreaming` carries the same requirement. The processors built by the exam builder and the command line always meet it (`MemoryOptimizer.DefaultChunkSizeExceedsOverlap`).
- PdfStreaming.PdfProcessor.WindowSize passes 0 as the document length, because the chunk-size rule ignores it.
- Cli.JoinPath joins by plain concatenation. `Path("output") / name` also tidies the result, so a typed `./a.txt` gives `output/a.txt` in the program and `output/./a.txt` in the model. The file name and the format choice are the same either way.
- PdfExtraction.GetPdfMetadata models a failed read as a missing or unopenable file. A metadata read that fails on an opened file is not modelled.
- QuestionGeneration.QuestionGenerator.GradeMultipleChoiceExam computes the percentage with the `Score` function. The same expression appears inline in the source.

## Findings

| source | as written | input that shows it | evidently intended | confidence | as-written member | corrected member |
|---|---|---|---|---|---|---|
| src/memory_optimizer.py:166-169 | `> 80` is tested before `> 90`, so the branch that quarters the chunk size is never taken | system memory at 95%, base 512: the code returns 256 (`MemoryOptimizer.AsWrittenNeverQuarters`) | half the base from 80% to 90%, a quarter above 90%: 128 | not executed | MemoryOptimizer.GetOptimalChunkSizeAsWritten | MemoryOptimizer.GetOptimalChunkSize |

Everything else in the model uses the rule as written, because that is what the program runs: the chunker's window size comes from `MemoryOptimizer.GetOptimalChunkSizeAsWritten`. The corrected rule is stated and proved beside it.
