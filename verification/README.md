# drsedman core, modelled in Dafny

drsedman turns geoscience papers (PDFs) into a searchable store and answers
questions from it. This project models the part of it that is plain text and
record handling:

- **Segmenter** (`Segmenter`, `segmenter.dfy`). `chunk_generator` checks its
  size parameters, cuts the text into stripped sentences after `.`, `!`, `?`
  or a newline, and slices any over-long sentence into fixed-width stripped
  pieces.
- **Progress ledger and batch ingestion** (`Processor`, `processor.dfy`).
  `get_processed_files` and `update_progress` keep a JSON map from PDF name to
  chunk count. `process_batch` ingests a list of chunks.
- **Page filter** (`PdfPages`, `pdfpages.dfy`). `pdf_utils.process_pdf`
  post-processes the Markdown extractor's page list. It keeps dictionary pages
  only, strips their text, keeps pages of more than twenty words, and ends
  with a single `""` on an exception.
- **Vector store** (`VectorStore`, `vectorstore.dfy`).
  - `VectorDB.ingest`, `search`, the two counts, `ingest_pdf` and
    `ingest_gemini_summaries`.
  - The `documents` and `embeddings` tables are sequences of rows.
  - The id generator, the text encoder, cosine distance, and the points where
    a call fails are inputs.
- **Extraction script** (`ExtractionScript` and `ExtractionRetry`, in
  `script.dfy` and `retry.dfy`). These model `scripts/process_pdfs_gemini.py`:
  - PDF validation by size and structural validation of a JSONL output.
  - The choice of PDFs to (re)process and the batches of three.
  - The records written.
  - The retry loop of `process_with_retry`, as a fold over the outcomes of
    its attempts. It returns the accepted text, the waits slept, and the
    number of attempts.
- **Single-shot extractor** (`GeminiExtractor`, `gemini.dfy`). This covers
  `src/core/gemini.py`: validation in megabytes, fence removal without a final
  strip, the record built, and the skip rule of `process_directory`.
- **Bot** (`Bot`, `bot.dfy`). `Bot.get_response` applies the similarity floor
  and sort, groups hits by type into the context block, builds the prompt, and
  applies the reply rules: `<STOP>`, the fixed refusal, and the apology.
- **Chat** (`Chat`, `chat.dfy`).
  - The persisted history capped at `max_history`, and `clean_content`'s
    whitespace collapsing.
  - The citation-building reply of `get_response`, with its duplicate
    suppression and its follow-up question.
  - The whitespace tokenisation of the reply.

Shared modules:

- `Wrappers`: `Option` and `Result`.
- `Text`: Python's `strip`, `split`, `isspace`, `replace`, `basename` and
  line reading.
- `JsonModel`: an abstract JSON value with Python's truthiness and `in`.
  Parsing and printing are function parameters. A float is carried as its
  printed form.
- `JsonCodec`: one concrete printer and parser that read every value back,
  which shows that the read-back premise `JsonModel.RoundTrips` can be met.
- `Sorting`: a stable sort.
- `FileSystem`: files as a map from path to text.

A store row is written by one `INSERT` for the document and a second for the
embedding, with no transaction around them. So documents and embeddings stay
paired only along failure-free histories, and the model proves it that way.
`VectorStore.Consistent` is the invariant of successful `ingest` calls.
`VectorStore.WellFormed` is the weaker invariant that every call keeps, and
`VectorStore.EncoderFailureBreaksCounts` exhibits the broken pairing.

Two properties cross component boundaries:

- The records that either extractor writes carry no `metadata.prompt`. The
  summary loader of the vector store needs that key, so it abandons
  every such file at its first line. `ExtractionScript.ScriptOutputNotIngested`
  and `GeminiExtractor.PassOutputNotIngested` state this.
- An output file the script writes passes the script's own `validate_jsonl`.
  So a PDF whose extraction succeeded is skipped on the next run unless
  `retry_failed` is set (`ExtractionScript.SucceededOutputsValidate`).

## Model

| member | source | states |
|---|---|---|
| Processor.GetProcessedFiles | src/core/processor.py:16-21 | A `None` or empty path, or a path with no file, reads as `{}`. For an existing file, reading fails exactly when its text is not JSON. |
| Processor.UpdateProgress | src/core/processor.py:23-30 | A falsy path leaves the file system as it was. Otherwise the ledger file is the only file written (created if missing) and every other file keeps its text. |
| Processor.UpdateThenRead | src/core/processor.py:23-30 | Reading the ledger back after an update gives the previous ledger with only `filename ↦ chunks_processed` changed, and no other path appears or disappears. |
| Processor.FirstUpdate | src/core/processor.py:16-30 | A missing ledger starts as `{}`: the first update creates the file holding the single entry. |
| Processor.UpdatesCommute | src/core/processor.py:23-30 | Updates for two different PDFs commute: each sets its own key and nothing else. |
| Processor.MalformedLedgerRaises | src/core/processor.py:16-30 | A ledger file whose text is not JSON makes every update raise, and nothing is written. |
| Processor.ProcessBatch | src/core/processor.py:73-80 | A batch makes at most one ingest call per chunk, and exactly one per chunk when no call fails. The documents already stored stay in place as a prefix. |
| Processor.BatchItems | src/core/processor.py:76-77 | One `ingest` call per chunk, in order, with `source = pdf_path` and the defaults `"finding"` and `""`. |
| Processor.ProcessBatchRows | src/core/processor.py:73-80 | A batch never removes a stored row. Without a failure, it appends one paired row per chunk, blank chunks included, each with the chunk and `pdf_path`. |
| Segmenter.ChunkText | src/core/processor.py:32-71 | Empty text yields no chunks whatever the sizes. Otherwise the three `ValueError`s are raised in the source's order. Valid sizes always succeed, and every chunk is at most `max_chunk_size` long with no whitespace at either end. |
| Segmenter.Chunk | src/core/processor.py:32-71 | The two-pass generator (a character scan with a sentence buffer, then the slicing loop) computes exactly the chunk list `ChunkText` specifies. |
| Segmenter.SplitSentences | src/core/processor.py:46-62 | The character loop, plus the closing of the remainder, yields the stripped non-empty pieces of the text cut after every terminator. |
| Segmenter.ScanChar | src/core/processor.py:50-56 | One turn of the character loop keeps the buffer free of terminators and preserves the sentences still to come. |
| Segmenter.CloseRemainder | src/core/processor.py:58-62 | The buffer left after the last character becomes the last sentence when it strips to something. |
| Segmenter.EmitChunks | src/core/processor.py:64-71 | The sentence loop emits, in order, each fitting sentence whole and each long sentence as its stripped slices. |
| Segmenter.EmitOne | src/core/processor.py:65-71 | One sentence becomes itself when it fits, else its stripped fixed-width slices. |
| Segmenter.SliceSentence | src/core/processor.py:66-69 | The inner loop yields `sentence[i:i+max].strip()` for every `i` in `range(0, len, max)`. |
| Segmenter.KeepStripped | src/core/processor.py:53-62 | Every sentence kept is stripped and non-empty. |
| Segmenter.RawSlices | src/core/processor.py:68-69 | No slice is longer than `max_chunk_size`. |
| Segmenter.Emit | src/core/processor.py:65-71 | What one stripped sentence turns into fits the limit and is stripped. |
| Segmenter.EmitAll | src/core/processor.py:64-71 | Every chunk of the second pass fits the limit and is stripped. |
| Segmenter.ChunksKeepVisibleText | src/core/processor.py:50-71 | Order and content survive: deleting all whitespace from the concatenated chunks gives the input with all whitespace deleted. |
| Segmenter.RawSlicesConcat | src/core/processor.py:68-69 | The slices of a sentence, concatenated, give back the sentence from the slicing offset on. |
| Segmenter.RawSliceCount | src/core/processor.py:68 | The slices from offset `k` number ⌈(L − k) / max⌉. |
| Segmenter.CeilDivBounds | src/core/processor.py:68 | For a non-empty sentence, ⌈L / max⌉ is the count `c` with `(c − 1)·max < L ≤ c·max`: the last slice is non-empty and no slice is missing. |
| Segmenter.LongSentenceChunkCount | src/core/processor.py:66-69 | A sentence longer than the limit becomes exactly ⌈L / max⌉ chunks, never fewer than two. |
| Segmenter.BlankSliceExample | src/core/processor.py:66-69 | A slice can strip to nothing: `"ab  cd"` with size 2 gives `["ab", "", "cd"]`. So non-emptiness holds only for sentences that fit. |
| Segmenter.OverlapDoesNotShapeOutput | src/core/processor.py:40-71 | `overlap` decides only whether the call is accepted: any two valid overlaps give the same chunks. |
| Segmenter.SentenceShape | src/core/processor.py:50-62 | Every sentence is non-empty and stripped, and holds a terminator at most as its last character. |
| Segmenter.TwoFittingSentences | src/core/processor.py:50-71 | Two terminator-free runs, each closed by `.` and shorter than the limit, come out as their two stripped sentences, in order. |
| Segmenter.ExampleTwoSentences | tests/core/test_processor.py:69-80 | `chunk_generator("One. Two.", 10, 0)` yields `["One.", "Two."]`. |
| Text.StripIsSlice | src/core/processor.py:53 | `strip()` returns a contiguous slice of its input, starting where `lstrip()` does. |
| Text.EraseSpaceStrip | src/core/processor.py:53 | Stripping never loses a non-whitespace character. |
| Text.StripStripped | src/core/processor.py:53 | Stripping is idempotent: a string with no whitespace at either end is its own strip. |
| Text.ConcatSplitAfter | src/core/processor.py:50-62 | The pieces the terminator scan closes, concatenated, give back the text. |
| Text.Words | src/core/pdf_utils.py:46 | `split()` yields non-empty runs with no whitespace. |
| Text.Basename | src/interface/bot.py:123 | `os.path.basename` holds no `/` and is a suffix of the path. |
| Text.SplitOn | src/interface/chat.py:77 | `split('\n')` yields at least one piece, and no piece holds the separator. |
| Text.LowerAscii | src/interface/chat.py:107 | Lower-casing keeps the length and maps every character through ASCII lower-casing. |
| Text.OneLine | src/core/vectordb.py:190-191 | A file holding one line-break-free text and a newline is read as exactly one line, that text with its newline. |
| JsonModel.PyIn | scripts/process_pdfs_gemini.py:203 | Python's `k in x` raises exactly on `None`, booleans and numbers, and on a dictionary tests the keys. |
| JsonModel.PyAllIn | scripts/process_pdfs_gemini.py:203 | On a dictionary, `all(k in d for k in keys)` holds exactly when every key is present. |
| Sorting.SortBy | src/core/vectordb.py:132 | The sort returns a permutation of its input in ascending key order. |
| Sorting.SortSorted | src/interface/bot.py:111 | The sort is stable: a list already in order is returned unchanged, ties included. |
| PdfPages.FilterChunks | src/core/pdf_utils.py:42-51 | Every yielded chunk but the last is a stripped page text of more than twenty words. The last one is that too, or the `""` of an exception. |
| PdfPages.YieldShape | src/core/pdf_utils.py:42-47 | An element yields at most one chunk. It yields one exactly when it is a dictionary page with `text` whose stripped text has more than twenty words. |
| PdfPages.FilterEndsInEmptyIffRaises | src/core/pdf_utils.py:42-51 | The stream ends in `""` exactly when some page's `text` cannot be stripped. |
| PdfPages.ProcessPdf | src/core/pdf_utils.py:15-51 | When the extractor itself raises, the stream is exactly one `""`. |
| PdfPages.FilterAppend | src/core/pdf_utils.py:42-47 | Pages are yielded in page order and independently of each other: the stream of a concatenation is the concatenation of the streams. |
| PdfPages.ErrorEndsStream | src/core/pdf_utils.py:42-51 | A page whose text cannot be stripped keeps what came before, adds `""`, and drops every later page. |
| PdfPages.SkippedElements | src/core/pdf_utils.py:43-44 | A non-dictionary element and a page without `text` yield nothing and do not stop the stream. |
| PdfPages.OnePage | src/core/pdf_utils.py:44-47 | A single page yields its stripped text exactly when that has more than twenty words. |
| VectorStore.DocumentCount | src/core/vectordb.py:161-163 | The document count is zero exactly when the store holds no document. |
| VectorStore.EmbeddingCount | src/core/vectordb.py:165-167 | The embedding count is zero exactly when the store holds no embedding. While the tables are paired it equals the document count. |
| VectorStore.IngestAll | src/core/processor.py:75-80 | A non-empty list makes at least one and at most one ingest call per item, and exactly one per item on success. An empty list changes nothing. The documents already stored stay in place as a prefix. |
| VectorStore.Ingest | src/core/vectordb.py:66-91 | A successful call appends exactly one document row and one embedding row. They share the next id of the `uuid4` stream and hold the arguments and the content's encoding. A failed call removes nothing and adds at most one row to each table. |
| VectorStore.IngestKeepsWellFormed | src/core/vectordb.py:66-91 | Whatever step an `ingest` fails at, both primary keys hold and no embedding row lacks its document. |
| VectorStore.IngestSuccessKeepsConsistent | src/core/vectordb.py:66-87 | A successful `ingest` keeps the tables paired, raises both counts by one, and uses an id not already stored. |
| VectorStore.EncoderFailureBreaksCounts | src/core/vectordb.py:72-91 | With no rollback, an encoder failure after the document insert re-raises and leaves one more document than embeddings. |
| VectorStore.IngestAllSuccess | src/core/processor.py:75-80 | Without failures, ingesting a list appends one paired row per item, in order, holding the item's fields. |
| VectorStore.IngestAllKeepsRows | src/core/processor.py:75-80 | Ingesting a list, with or without a failure, never removes or rewrites a stored row and keeps the store well formed. |
| VectorStore.Joined | src/core/vectordb.py:111-129 | The joined rows are stored document/embedding pairs with matching ids that pass the type filter. |
| VectorStore.Scored | src/core/vectordb.py:112-142 | Each result carries the document's fields and `similarity = 1 − distance`. |
| VectorStore.Search | src/core/vectordb.py:93-159 | A failure yields `[]`. Otherwise there are at most `top_k` results, each a candidate of the join, in ascending distance. |
| VectorStore.CandidatesBacked | src/core/vectordb.py:118-129 | Every candidate is a stored document with an embedding row, and of the requested type when a type is given. |
| VectorStore.SearchSimilarityDescends | src/core/vectordb.py:132-140 | Results come in non-increasing similarity. |
| VectorStore.SearchResultsBacked | src/core/vectordb.py:118-129 | Every result is a stored document with an embedding row (the inner join). When `summary_type` is truthy, its type equals it. |
| VectorStore.SearchIsTopK | src/core/vectordb.py:131-143 | A successful search returns `min(top_k, #candidates)` candidates, and no candidate left out is more similar than one returned. |
| VectorStore.UnfilteredCandidatesCount | src/core/vectordb.py:119-121 | In a paired store with no type filter, every document is a candidate, exactly once. |
| VectorStore.PdfItems | src/core/vectordb.py:173-178 | Every chunk `ingest_pdf` passes on is non-blank and is ingested with `source = pdf_path` and the defaults. |
| VectorStore.IngestPdf | src/core/vectordb.py:169-182 | A PDF makes at most one ingest call per chunk that does not strip to nothing, and exactly one per such chunk on success. The documents already stored stay in place as a prefix. |
| VectorStore.NonBlankIsNonBlank | src/core/vectordb.py:174 | Every chunk that passes the `chunk.strip()` test is non-empty and does not strip to nothing. |
| VectorStore.IngestPdfRows | src/core/vectordb.py:169-182 | After a successful `ingest_pdf` on a paired store, every new document has content that does not strip to nothing, and its source is the PDF path. |
| VectorStore.IngestPdfPages | src/core/vectordb.py:173-178 | Fed by the page filter of `pdf_utils.process_pdf`, a successful ingestion stores no empty content: the `""` yielded after an extraction error never becomes a row. Every new row's source is the PDF path. |
| VectorStore.IngestPdfSuccess | src/core/vectordb.py:169-182 | Without failures, `ingest_pdf` stores exactly the chunks whose `strip()` is non-empty, in order, under `source = pdf_path`. |
| VectorStore.LineItem | src/core/vectordb.py:192-198 | The model ingests a line only when it decodes and its `content`, `metadata.source_file`, `metadata.prompt` and `metadata.summary_type` are all strings. These are the values stored. |
| VectorStore.BadLineAbandonsFile | src/core/vectordb.py:189-211 | A line that cannot be read abandons the rest of its file, and what earlier lines stored stays. |
| VectorStore.SummariesCompose | src/core/vectordb.py:188-211 | Files are loaded one after another: a failing file does not stop the ones after it. |
| VectorStore.SkippedEntry | src/core/vectordb.py:188-191 | A name the glob `*_gemini.jsonl` does not match, or a file that cannot be read, leaves the store as it was. |
| VectorStore.NoPromptAbandonsFile | src/core/vectordb.py:195-197 | A record whose metadata has no `prompt` key raises `KeyError` and is never ingested, and its file is abandoned there. |
| VectorStore.IngestLines | src/core/vectordb.py:190-206 | A summary file adds at most one document per line and never alters the documents already stored. |
| VectorStore.IngestGeminiSummaries | src/core/vectordb.py:188-211 | Loading summaries never alters the documents already stored. A listing with no `*_gemini.jsonl` file leaves the store as it was. |
| VectorStore.IngestLinesKeepsRows | src/core/vectordb.py:189-211 | The summary loader never removes or rewrites a stored row and keeps the store well formed. |
| ExtractionScript.ValidatePdf | scripts/process_pdfs_gemini.py:156-185 | A PDF is valid exactly when it exists and 1000 ≤ size ≤ 5·1024·1024 bytes. |
| ExtractionScript.LineOk | scripts/process_pdfs_gemini.py:199-216 | A line that passes decodes to a dictionary. |
| ExtractionScript.ValidateJsonl | scripts/process_pdfs_gemini.py:187-221 | The file is valid exactly when it exists, is non-empty, and every line passes the two-level key check. |
| ExtractionScript.AllLinesOk | scripts/process_pdfs_gemini.py:198-217 | The line loop succeeds exactly when every line passes. |
| ExtractionScript.NeedsProcessing | scripts/process_pdfs_gemini.py:246-250 | A PDF with no output file is always scheduled. A PDF that is skipped has a non-empty output file whose every line passes the line check. |
| ExtractionScript.Schedule | scripts/process_pdfs_gemini.py:244-256 | A listed PDF is scheduled exactly when `retry_failed` holds or its `<stem>_gemini.jsonl` fails validation. Only listed PDFs are scheduled. |
| ExtractionScript.DefaultSchedulesAll | scripts/process_pdfs_gemini.py:223-250 | With the function's default `retry_failed=True`, every listed PDF is scheduled, in order. |
| ExtractionScript.Batches | scripts/process_pdfs_gemini.py:265-269 | Every batch is non-empty and at most `batch_size` long, and all but the last are full. |
| ExtractionScript.FlattenBatches | scripts/process_pdfs_gemini.py:268-269 | The batches put back together are the work list. |
| ExtractionScript.BatchCount | scripts/process_pdfs_gemini.py:265-269 | There are ⌈n / 3⌉ batches: none for an empty list. |
| ExtractionScript.ProcessPdf | scripts/process_pdfs_gemini.py:121-154 | If the model cannot be built or validation fails, the result is `[]`. Otherwise there is at most one record for the one prompt, with the path, `"comprehensive"` and the timestamp. |
| ExtractionScript.ProcessPdfRecordsValid | scripts/process_pdfs_gemini.py:138-148 | Every record returned holds content that decodes to a well-formed extraction. |
| ExtractionScript.RecordLineOk | scripts/process_pdfs_gemini.py:285-291 | A written record reads back as a line that passes `validate_jsonl`'s checks. |
| ExtractionScript.WrittenOutputValidates | scripts/process_pdfs_gemini.py:285-291 | The output file written for a non-empty result passes `validate_jsonl`. |
| ExtractionScript.OutputText | scripts/process_pdfs_gemini.py:288-291 | The written text is empty exactly when there are no records, and otherwise ends in a newline. |
| ExtractionScript.OneRecordText | scripts/process_pdfs_gemini.py:289-291 | The file written for one record is one line that reads back as the record. |
| ExtractionScript.ScriptOutputNotIngested | scripts/process_pdfs_gemini.py:141-148 | The records the script writes have no `metadata.prompt`, so the summary loader stores nothing from their file. |
| ExtractionScript.BatchingIsTransparent | scripts/process_pdfs_gemini.py:264-291 | Running the batches one after another does what one pass over their concatenation does. |
| ExtractionScript.ParallelIsSequential | scripts/process_pdfs_gemini.py:244-291 | A run processes exactly the scheduled PDFs, in listing order. |
| ExtractionScript.ProcessList | scripts/process_pdfs_gemini.py:271-297 | Processing a list of PDFs never removes a file, and every file created or rewritten is the output path of a listed PDF. |
| ExtractionScript.ProcessBatches | scripts/process_pdfs_gemini.py:267-300 | Across the batches no file is removed, and every file created or rewritten is the output path of a PDF in some batch. |
| ExtractionScript.ProcessPdfsParallel | scripts/process_pdfs_gemini.py:243-300 | A run never removes a file. Every file it creates or rewrites is the output path of a listed PDF that was scheduled: its output was missing or invalid, or `retry_failed` was set. |
| ExtractionScript.ProcessListFrame | scripts/process_pdfs_gemini.py:283-291 | Only the output files of processed PDFs change. |
| ExtractionScript.SucceededOutputsValidate | scripts/process_pdfs_gemini.py:244-291 | After a pass, every PDF whose extraction succeeded has an output file that passes validation. So a later run without `retry_failed` skips it. |
| ExtractionScript.KeepsValid | scripts/process_pdfs_gemini.py:285-291 | An output file that passes validation still passes after a pass. |
| ExtractionRetry.CleanResponse | scripts/process_pdfs_gemini.py:350-357 | The cleaned response is no longer than the raw text and has no whitespace at either end. |
| ExtractionRetry.CleanFencedResponse | scripts/process_pdfs_gemini.py:350-357 | A fenced answer `"```json" + body + "```"` cleans to the stripped body. |
| ExtractionRetry.Unfence | scripts/process_pdfs_gemini.py:353-356 | Fence removal never lengthens the text, and it leaves text with neither fence unchanged. |
| ExtractionRetry.UnfenceFenced | scripts/process_pdfs_gemini.py:353-356 | A body wrapped in the opening `` ```json `` and the closing `` ``` `` comes back exactly. |
| ExtractionRetry.Judge | scripts/process_pdfs_gemini.py:344-374 | A response is accepted exactly when its text is non-empty and its cleaned text decodes to a dictionary. That dictionary must hold `metadata`, `study` and `findings`, a truthy `metadata.title` and truthy `findings`. |
| ExtractionRetry.EffectOf | scripts/process_pdfs_gemini.py:313-391 | An attempt ends the loop with a text only on a response whose cleaned text decodes to a well-formed extraction, and it returns that text. |
| ExtractionRetry.Loop | scripts/process_pdfs_gemini.py:313-401 | The loop makes at most `max_retries` attempts, none when started past the cap. A returned text is what one of the attempts made finished with. |
| ExtractionRetry.ProcessWithRetry | scripts/process_pdfs_gemini.py:306-401 | At most `max_retries` attempts. A returned string is stripped, parses to a well-formed extraction, and is the cleaned text of a response one of the attempts received. |
| ExtractionRetry.WaitsAreScheduled | scripts/process_pdfs_gemini.py:337-387 | The loop sleeps exactly what each attempt it made calls for, attempt by attempt, and nothing else. |
| ExtractionRetry.LoopRunsOut | scripts/process_pdfs_gemini.py:313-401 | When no attempt ends the loop, all attempts are made and `None` is returned. |
| ExtractionRetry.RateLimitedThroughout | scripts/process_pdfs_gemini.py:337-342 | Rate-limit errors throughout: every attempt is made, `None` is returned, and `(attempt + 1)·30` s are slept after each attempt, the last one included. |
| ExtractionRetry.NetworkErrorsThroughout | scripts/process_pdfs_gemini.py:381-387 | SSL or timeout errors throughout: every attempt is made, `None` is returned, and `(attempt + 1)·5` s are slept after each attempt but the last. |
| ExtractionRetry.OtherErrorsBreak | scripts/process_pdfs_gemini.py:389-391 | Any other exception outside generation ends the loop at once with `None`, after one attempt and no sleep. This includes one raised by the checks. |
| ExtractionRetry.AcceptedEndsLoop | scripts/process_pdfs_gemini.py:344-374 | The first accepted response ends the loop and is returned cleaned. |
| GeminiExtractor.ValidatePdfBytes | src/core/gemini.py:109-129 | The megabyte checks accept exactly the files of 1049 to 104857600 bytes. |
| GeminiExtractor.ValidatePdf | src/core/gemini.py:109-129 | A PDF passes only if it exists and its size in bytes is above 1048 (0.001 MB) and at most 104857600 (100 MB). |
| GeminiExtractor.Content | src/core/gemini.py:167-171 | The content is never longer than the answer. An answer whose stripped text has neither fence is that stripped text. One that has both and is at least ten characters long loses the seven-character opening and the three-character closing fence, with no second strip. |
| GeminiExtractor.ScriptCleansFurther | src/core/gemini.py:167-171 | This extractor's content is the script's cleaned text before the script's final strip. |
| GeminiExtractor.FencedAnswerKeepsNewlines | src/core/gemini.py:167-171 | On a fenced answer with its JSON on separate lines, this extractor keeps the line breaks inside the fences and the script does not. |
| GeminiExtractor.ProcessPdf | src/core/gemini.py:131-187 | A record is returned exactly when the PDF is valid, the answer has text, and the fence-stripped content decodes. The record's content is exactly that text, and its metadata holds only the path and the time. |
| GeminiExtractor.Step | src/core/gemini.py:205-222 | One PDF's turn never removes a file and leaves every path but that PDF's output as it was. An existing output with `retry_failed` off is skipped, and the files are unchanged. |
| GeminiExtractor.StepProcesses | src/core/gemini.py:209-222 | When the output is missing or `retry_failed` is set, a successful extraction leaves the output holding the dumped record and one newline, which reads back as that record. A failed one leaves the files unchanged. |
| GeminiExtractor.StepWrites | src/core/gemini.py:205-222 | One PDF writes at most its own output file, and what it writes is one line holding a record without `metadata.prompt`. |
| GeminiExtractor.ProcessDirectory | src/core/gemini.py:197-222 | A pass never removes a file, and every file it creates or rewrites is the output path of a listed PDF. |
| GeminiExtractor.ProcessDirectoryFrame | src/core/gemini.py:205-222 | A path that is no listed PDF's output path is left as it was. |
| GeminiExtractor.ProcessDirectoryOutput | src/core/gemini.py:205-222 | Take a listed PDF whose output path no other listed PDF shares, and whose output is missing or `retry_failed` is set. Success leaves its output holding its record on one line, which reads back as that record. Failure leaves that path as it was. |
| GeminiExtractor.ProcessDirectoryWrites | src/core/gemini.py:191-222 | A pass only adds or rewrites output files of listed PDFs, each one line holding a record. |
| GeminiExtractor.ExistingOutputKept | src/core/gemini.py:206-211 | Without `retry_failed`, a PDF whose output file exists is skipped and its file left as it was, whatever it holds. |
| GeminiExtractor.SecondPassIsIdle | src/core/gemini.py:206-211 | After a pass that wrote every PDF's file, a second pass without `retry_failed` changes nothing. |
| GeminiExtractor.PassOutputNotIngested | src/core/gemini.py:173-179 | The summary loader stores nothing from any file a pass writes. |
| FileSystem.StemOfPdf | scripts/process_pdfs_gemini.py:246 | For a dot-free `base`, the stem of `<base>.pdf` is `base`. A file named just `.pdf` keeps its whole name, as a dotfile. |
| JsonCodec.RoundTripsMet | src/core/gemini.py:217-219 | A concrete printer and parser exist for which every JSON value, floats included, reads back as itself, so the read-back premise of the model can be met. |
| Bot.AtLeast | src/interface/bot.py:112 | A hit is kept exactly when its similarity reaches the floor. |
| Bot.Relevant | src/interface/bot.py:111-112 | There are no more relevant hits than results. A hit is relevant exactly when it is a result with similarity at least 0.6. |
| Bot.AtLeastOfDescending | src/interface/bot.py:111-112 | On hits in falling similarity, the kept hits are a prefix, and every hit after it is below the floor. |
| Bot.RelevantIsPrefix | src/interface/bot.py:107-112 | The relevant hits are a prefix of the search's results: every one is at or above 0.6, and every result after them is below. |
| Bot.RelevantNonEmpty | src/interface/bot.py:111-114 | Some hit is relevant exactly when one of the results reaches the floor: the sort loses nothing. |
| Bot.DisplaySourceShape | src/interface/bot.py:123 | A source label holds no `/` and is no longer than the path's base name. |
| Text.ReplaceAll | src/interface/bot.py:123 | Replacing with the empty string never lengthens the text. |
| Text.ReplaceAllFrom | src/interface/bot.py:123 | Replacement introduces no character that is in neither the text nor the replacement. |
| Bot.DisplayOfSummaryFile | src/interface/bot.py:123 | For a stem without `/` in which `_gemini.jsonl` starts at no position, the source label of `<dir>/<stem>_gemini.jsonl` is `stem`. |
| Bot.DisplayOfPdf | src/interface/bot.py:123 | For a file name without `/` that contains no `_gemini.jsonl`, the source label of `<dir>/<name>` is `name`. |
| Bot.ReadHit | src/interface/bot.py:126-139 | A hit is tagged exactly when its content decodes to a dictionary, and the tagged content's `source` is the hit's label. |
| Bot.GroupHits | src/interface/bot.py:115-139 | Grouping raises exactly when some relevant content decodes to JSON that is not a dictionary. Otherwise each group holds only tagged contents of hits of that group's type. |
| Bot.FileRoutes | src/interface/bot.py:130-135 | A `finding`, `relationship` or `methodology` entry is put in front of its own list and the other lists are unchanged. Any other type leaves all three lists as they were. |
| Bot.GroupHitsInOrder | src/interface/bot.py:115-139 | When grouping does not raise, each list holds every tagged content of the hits of its type and nothing else, in the order of the hits. |
| Bot.Context | src/interface/bot.py:144-166 | The context block opens with `[CONTEXT START]` and a rule of eighty `=`, and closes with that rule and `[CONTEXT END]`, each on its own line. |
| Bot.ContextSections | src/interface/bot.py:144-166 | The block is the head, then the findings, relationships and methodology sections in that order, each left out when its list is empty, then the tail. |
| Bot.ContextShowsGroups | src/interface/bot.py:147-163 | Every non-empty group appears as its whole titled section with one line per entry in order, and the shown sections are adjacent in the order findings, relationships, methodology. |
| Bot.TitleInsideEntry | src/interface/bot.py:147-157 | A block with no findings can still contain the text `FINDINGS:` when a relationship prints as it. |
| Bot.ContextNewlines | src/interface/bot.py:143-166 | The context block has one line break per grouped entry and four of frame. Shown sections add four each for findings and relationships and three for methods. Empty sections add none. |
| Bot.ContextOfRelevant | src/interface/bot.py:109-166 | A context is built exactly when some hit reaches the floor and no relevant content is non-dictionary JSON, even if no entry parses. |
| Bot.BuildContext | src/interface/bot.py:102-166 | Without a store there is no context. A context, or an error, needs a store and a search result at or above the floor. A built context opens with the frame's head. |
| Bot.ContextWhenRelevant | src/interface/bot.py:102-114 | Without a store there is never a context. With one, there is a context exactly when a search result reaches the floor, barring the error case. |
| Bot.Prompt | src/interface/bot.py:169-175 | The prompt opens with the system prompt, a blank line and the query line, and ends with the response label. It holds the context text whole, or the no-sources sentence when there is no context. |
| Bot.GetResponse | src/interface/bot.py:98-195 | Every reply ends with `<STOP>`. An error in the context step gives the apology. No context and a successful generation give the fixed refusal. With a context, the reply is an answer plus `<STOP>` or the apology. |
| Bot.GenerationOutcome | src/interface/bot.py:178-195 | A failed generation gives the apology both with and without a context. A successful one with a context gives the answer followed by ` <STOP>`. |
| Bot.AnswerCarriesContext | src/interface/bot.py:169-191 | With a context, the reply is the model's answer to a prompt that holds the whole context, followed by ` <STOP>`. |
| Chat.SliceFrom | src/interface/chat.py:27 | Python's `h[start:]` is a suffix of `h`. |
| Chat.TailShape | src/interface/chat.py:34 | `h[-m:]` keeps the last `m` entries for `m > 0`, everything for `m == 0`, and drops the first `-m` for `m < 0`. |
| Chat.LoadHistory | src/interface/chat.py:21-29 | A missing or undecodable file gives `[]`. With a positive cap, at most `max_history` entries are loaded. Loading fails exactly when the file decodes to something other than a list. It fails at load for numbers, booleans, `null` and over-cap dictionaries, and keeps strings and small dictionaries. |
| Chat.LoadDumped | src/interface/chat.py:21-29 | A file holding a dumped list loads as that list, cut to the last `max_history` entries when longer. |
| Chat.SaveThenLoad | src/interface/chat.py:31-34 | Saving and loading back gives the last `max_history` entries, for any cap that is not negative. |
| Chat.NegativeCapLosesMessages | src/interface/chat.py:26-34 | With a cap of −1, a saved history of two messages loads as empty: each slice drops one more entry. |
| Chat.SaveHistory | src/interface/chat.py:31-34 | Saving creates or rewrites the history file and no other. |
| Chat.ClearHistory | src/interface/chat.py:46-49 | Clearing empties the history and rewrites the history file, touching no other file. |
| Chat.AddMessage | src/interface/chat.py:36-44 | The history grows by exactly the new message, earlier entries unchanged, and no file but the history file changes. |
| Chat.ClearThenLoad | src/interface/chat.py:46-49 | After a clear, the history file loads as empty. |
| Chat.AddThenLoad | src/interface/chat.py:36-44 | After an add with a positive cap, the file loads as the last `max_history` messages, ending with the new one. |
| Chat.Collapse | src/interface/chat.py:63 | Collapsing leaves only single plain spaces and keeps the first character's kind. |
| Chat.CollapseKeepsText | src/interface/chat.py:63 | Collapsing whitespace keeps every non-whitespace character, in order. |
| Chat.CleanContent | src/interface/chat.py:62-64 | The cleaned text has no leading or trailing whitespace. Its only whitespace is single spaces, never two in a row. |
| Chat.CleanContentShape | src/interface/chat.py:51-64 | A cleaned line has no whitespace at either end and only single spaces inside. It keeps every non-whitespace character the pattern deletions left. |
| Chat.SourceName | src/interface/chat.py:84 | A source name, when there is one, is a non-empty word without whitespace. |
| Chat.SourceOfFromLine | src/interface/chat.py:83-85 | `From name …` names `name`, when no later `From ` follows. |
| Chat.Collect | src/interface/chat.py:77-90 | Every collected sentence is the cleaned form of a context line that is neither skipped (blank or a similarity line) nor a source line, stripped, non-empty and of more than ten words. There are no more sentences than lines. |
| Chat.CollectWithoutSources | src/interface/chat.py:75-90 | Without source lines nothing raises, and every sentence keeps the initial source `None`. |
| Chat.CollectAfterSource | src/interface/chat.py:83-85 | A source line is not cited and switches the source of the sentences after it. |
| Chat.Cited | src/interface/chat.py:77-90 | Every collected line is non-empty, stripped and longer than ten words. A context with no `From ` line never raises while collecting. |
| Chat.Kept | src/interface/chat.py:97-104 | Only sentences that pass the word-count checks and were not cited before are kept. |
| Chat.KeptDistinct | src/interface/chat.py:97-104 | No sentence is cited twice. |
| Chat.KeptComplete | src/interface/chat.py:97-104 | Every sentence that passes the checks is cited. |
| Chat.Respond | src/interface/chat.py:72-114 | A missing or empty context gives the fixed no-sources reply. |
| Chat.Reply | src/interface/chat.py:93-110 | No collected lines give the fixed apology. Otherwise the reply opens with `Based on the available sources, `, and a query starting with what, how or why ends with the follow-up question. |
| Chat.ReplyCitesEach | src/interface/chat.py:93-104 | A reply built from sentences opens with "Based on the available sources, " and cites every citable sentence with one of its sources. |
| Chat.ReplyFollowUp | src/interface/chat.py:106-108 | A reply built from sentences ends in the follow-up question exactly when the lower-cased query starts with what, how or why. |
| Chat.Tokens | src/interface/chat.py:120-121 | There is one token per word, each the word followed by one space. |
| Chat.GetResponse | src/interface/chat.py:66-121 | The history grows by the user query and then the assistant reply (only the query when the loop raises), and one token is yielded per word of the reply. |
| Chat.WordsKeepText | src/interface/chat.py:120 | The words of a text, concatenated, are its non-whitespace characters. |
| Chat.StreamKeepsReply | src/interface/chat.py:119-121 | The streamed tokens lose only whitespace: the reply's visible text comes out whole and in order. |

## Left out

- **The embedding network and entropy** (`src/core/model.py`, `Bot.calculate_entropy`). These are MLX floating-point numerics. The encoder is an uninterpreted function from text to a vector, and cosine distance is an uninterpreted real function.
- **External services.** Gemini upload, generation and deletion, `mlx_lm` loading and generation, and `setup_gemini` are left out. Their outcomes are inputs: a per-attempt outcome for the retry loop, an answer per PDF, and a generator function for the bot.
- **DuckDB itself.** The SQL engine, the VSS extension, `CHECKPOINT` and autocommit are left out; the tables are sequences. Rows whose vectors cannot be cast to `FLOAT[1024]` make the query fail, which `search` turns into `[]`. A negative `top_k` is taken to make the query fail too: DuckDB rejects a negative `LIMIT`.
- **Search ties.** The model orders ties by a stable sort of the joined rows in document order. The SQL leaves their order unspecified.
- **The `json` module.** Parsing and printing are function parameters, and read-back results assume `JsonModel.RoundTrips`. `JsonCodec` meets that premise with a printer of its own, not with Python's text format. A float is identified by its printed form, so `1.0` and `1.00` are different values and float arithmetic is not modelled. `json.dumps(..., ensure_ascii=False)` of the bot is a separate printer.
- **The file system, directory listings and file sizes.** These are inputs. Reading a file in text mode is modelled with universal newlines. Directory creation and the glob's order are not modelled: listings are given in glob order.
- **`clean_content`'s five pattern deletions.** They are one text-to-text input. The whitespace collapsing and the final strip are modelled.
- **Unicode lower-casing.** `query.lower().startswith(...)` is modelled by ASCII lower-casing of the leading characters, which decides the same question for the letters used.
- **Concurrency and timing.** `ThreadPoolExecutor` (one worker), tqdm, `gc.collect`, the 10-second pause after each batch, logging and `print` are left out. Waits are returned durations. Timestamps (`time.time()`, `datetime.now()`) are parameters.
- **Generator laziness.** `chunk_generator`, `process_pdf` and `Chat.get_response` are modelled as consumed to the end. Their errors are therefore shown as results of the whole call, not of a particular `next()`.
- **Non-list history files.** A history file that decodes to JSON other than a list is an `Err` in `Chat.LoadHistory`. A number, a boolean, `null`, or a dictionary longer than the cap makes `load_history` raise `TypeError` at once (`RaisesAtLoad`). A string, or a dictionary within the cap, is kept by Python and fails at the first `append` (`NonListKept`). The model does not carry such a kept value into later calls.
- **Non-string values.** The model accepts a field read from a JSON record only when it is a string. Python passes other values on; the `VectorStore.LineItem` line below says where this matters. A `text` value of another type that has a `strip` method (bytes) is treated like any other unstrippable value.
- **The process-level wrappers.** `VectorDB.__post_init__`, `close`, and the CLI argument parsing are left out. The CLI's only effect modelled is that `--retry-failed` defaults to false.
- **`src/tools/`.** Presentation only (rich and HTML output); not part of this model.
- **Prompt texts.** `EXTRACTION_PROMPT`, the script's `prompts`, and the bot's `SYSTEM_PROMPT` are left out; the system prompt is an input. The script's single prompt is modelled as one extraction per PDF.
- PdfPages.ProcessPdf: its own contract covers only the extractor raising. The page-by-page behaviour is stated by `PdfPages.FilterChunks`, `PdfPages.FilterEndsInEmptyIffRaises` and `PdfPages.FilterAppend`.
- Chat.Respond: its own contract covers only the no-context reply. The reply built from a context is stated by `Chat.ReplyCitesEach` and `Chat.ReplyFollowUp`, and one that raises by `Chat.Collect`.
- ExtractionScript.LineOk: its own contract states only that a passing line decodes to a dictionary. The full two-level check is stated through `ExtractionScript.RecordLineOk` for the lines the script writes.
- Chat.Reply: states the fixed apology only in the direction "no collected lines give the apology". Its citations are stated by `Chat.ReplyCitesEach`.
- GeminiExtractor.ValidatePdf: states only that a passing PDF is within the size range. The exact range accepted is stated by `GeminiExtractor.ValidatePdfBytes`.
- GeminiExtractor.Content: states the no-fence case and the two-fence case. An answer with only one of the two fences is not described by its contract.
- ExtractionRetry.Unfence: states the no-fence case. The fenced case is stated by `ExtractionRetry.UnfenceFenced`, and an answer with only one fence is not described.
- VectorStore.LineItem: reads only string values. `ingest_gemini_summaries` passes a `null`, number, list or dictionary in `content`, `metadata.source_file`, `metadata.prompt` or `metadata.summary_type` on to `ingest`. The database may then store it, as `NULL` or as a cast value. The model abandons the file at such a line instead, because what DuckDB does with each such value is not part of this model. The same holds for `VectorStore.NoPromptAbandonsFile`, whose premise also covers a non-string `prompt`.
- Bot.GroupHits: its own contract states only that nothing foreign enters a list. That every entry of a type reaches its list, in hit order, is stated by `Bot.GroupHitsInOrder`.
- Bot.Context: its own contract states only the frame. The sections and their order are stated by `Bot.ContextSections` and `Bot.ContextShowsGroups`. The converse "the block contains `FINDINGS:` only when there are findings" is not promised, because an entry can print as a title (`Bot.TitleInsideEntry`).
