/** The extraction script `scripts/process_pdfs_gemini.py` around its retry
    loop: PDF validation by size, structural validation of an existing
    JSONL output, the choice of PDFs to (re)process, the split of that list
    into batches of three, and the records written for each PDF.

    The directory listing, file sizes, the file system and the remote
    model's behaviour per PDF are inputs; the `json` module is a parser and
    a printer. With one worker the futures of a batch complete in
    submission order, so a batch is processed in list order. */
module ExtractionScript {
  import opened Wrappers
  import opened Text
  import opened JsonModel
  import opened FileSystem
  import ExtractionRetry
  import VectorStore

  /** `MAX_FILE_SIZE_MB` of the script. */
  const MaxFileSizeMb: nat := 5

  const MaxFileSize: nat := MaxFileSizeMb * 1024 * 1024

  /** The smallest file accepted, in bytes. */
  const MinFileSize: nat := 1000

  /** `batch_size` of `process_pdfs_parallel`. */
  const BatchSize: nat := 3

  /** `max_retries` passed to `process_with_retry`. */
  const MaxRetries: nat := 3

  /** The summary type of prompt 0, the only prompt. */
  const SummaryType: string := "comprehensive"

  /** `validate_pdf(pdf_path)` over the sizes of the files that exist. */
  function ValidatePdf(sizes: map<string, nat>, path: string): (ok: bool)
    ensures ok <==> path in sizes && MinFileSize <= sizes[path] <= 5 * 1024 * 1024
  {
    if path !in sizes then false
    else if sizes[path] == 0 then false
    else if sizes[path] > MaxFileSize then false
    else if sizes[path] < MinFileSize then false
    else true
  }

  /** One line of an output file passes: it decodes to a value holding
      `content` and `metadata`, and `content` is a string that decodes to a
      value holding `metadata`, `study` and `findings`. A `TypeError` on the
      way counts as a failure, like any exception there. */
  function LineOk(line: string, parse: Parser): (ok: bool)
    ensures ok ==> parse(line).Some? && parse(line).value.JObj?
  {
    match parse(line)
    case None => false
    case Some(data) =>
      if PyAllIn(["content", "metadata"], data) != Some(true) then false
      else
        match Field(data, "content")
        case Some(JStr(text)) =>
          (match parse(text)
           case Some(content) => PyAllIn(ExtractionRetry.RequiredKeys, content) == Some(true)
           case None => false)
        case _ => false
  }

  /** `validate_jsonl(jsonl_path)`: the file exists, is not empty, and every
      line passes. */
  function ValidateJsonl(fs: Files, path: string, parse: Parser): (ok: bool)
    ensures ok <==> Exists(fs, path) && fs[path] != [] && forall l :: l in Lines(fs[path]) ==> LineOk(l, parse)
  {
    Exists(fs, path) && fs[path] != [] && AllLinesOk(Lines(fs[path]), parse)
  }

  /** The loop over the lines, stopping at the first failure. */
  function AllLinesOk(lines: seq<string>, parse: Parser): (ok: bool)
    ensures ok <==> forall l :: l in lines ==> LineOk(l, parse)
  {
    if lines == [] then true
    else if !LineOk(lines[0], parse) then false
    else
      assert forall l :: l in lines ==> l == lines[0] || l in lines[1..];
      AllLinesOk(lines[1..], parse)
  }

  /** The scheduling rule of `process_pdfs_parallel`. */
  function NeedsProcessing(fs: Files, outputDir: string, pdfName: string, retryFailed: bool, parse: Parser): (b: bool)
    ensures !Exists(fs, OutputPath(outputDir, pdfName)) ==> b
    ensures !b ==> var out := OutputPath(outputDir, pdfName);
                   out in fs && fs[out] != [] && forall l :: l in Lines(fs[out]) ==> LineOk(l, parse)
  {
    retryFailed || !ValidateJsonl(fs, OutputPath(outputDir, pdfName), parse)
  }

  /** `to_process`: the PDFs to (re)process, in listing order. */
  function Schedule(fs: Files, outputDir: string, pdfs: seq<string>, retryFailed: bool, parse: Parser): (r: seq<string>)
    ensures |r| <= |pdfs|
    ensures forall p :: p in pdfs ==> (p in r <==> NeedsProcessing(fs, outputDir, p, retryFailed, parse))
    ensures forall p :: p in r ==> p in pdfs
  {
    if pdfs == [] then []
    else
      var rest := Schedule(fs, outputDir, pdfs[1..], retryFailed, parse);
      assert forall p :: p in pdfs <==> p == pdfs[0] || p in pdfs[1..];
      (if NeedsProcessing(fs, outputDir, pdfs[0], retryFailed, parse) then [pdfs[0]] else []) + rest
  }

  /** With the function's default `retry_failed=True` every PDF is
      scheduled; the command line passes `False` unless `--retry-failed`
      is given. */
  lemma DefaultSchedulesAll(fs: Files, outputDir: string, pdfs: seq<string>, parse: Parser)
    ensures Schedule(fs, outputDir, pdfs, true, parse) == pdfs
  {
    if pdfs != [] {
      DefaultSchedulesAll(fs, outputDir, pdfs[1..], parse);
    }
  }

  /** `[xs[i:i + size] for i in range(0, len(xs), size)]` */
  function Batches<T>(xs: seq<T>, size: nat): (bs: seq<seq<T>>)
    requires size > 0
    ensures forall i :: 0 <= i < |bs| ==> 0 < |bs[i]| <= size
    ensures forall i :: 0 <= i < |bs| - 1 ==> |bs[i]| == size
    decreases |xs|
  {
    if xs == [] then []
    else if |xs| <= size then [xs]
    else [xs[..size]] + Batches(xs[size..], size)
  }

  function Flatten<T>(bs: seq<seq<T>>): seq<T> {
    if bs == [] then [] else bs[0] + Flatten(bs[1..])
  }

  /** The batches put back together are the work list. */
  lemma {:induction false} FlattenBatches<T>(xs: seq<T>, size: nat)
    requires size > 0
    ensures Flatten(Batches(xs, size)) == xs
    decreases |xs|
  {
    if xs != [] && |xs| > size {
      FlattenBatches(xs[size..], size);
      assert xs == xs[..size] + xs[size..];
    } else if xs != [] {
      assert Batches(xs, size) == [xs];
      assert Flatten([xs]) == xs + Flatten([xs][1..]);
    }
  }

  /** The number of batches is the work list's length divided by three,
      rounded up. */
  lemma {:induction false} BatchCount<T>(xs: seq<T>)
    ensures (|Batches(xs, BatchSize)| - 1) * BatchSize < |xs| <= |Batches(xs, BatchSize)| * BatchSize
            || (xs == [] && Batches(xs, BatchSize) == [])
    decreases |xs|
  {
    if |xs| > BatchSize {
      BatchCount(xs[BatchSize..]);
    }
  }

  /** The record written for an accepted extraction. */
  function Record(content: string, pdfPath: string, processedAt: string): Json {
    JObj(map["content" := JStr(content),
             "metadata" := JObj(map["source_file" := JStr(pdfPath),
                                    "summary_type" := JStr(SummaryType),
                                    "processed_at" := JStr(processedAt)])])
  }

  /** What the remote side does for one PDF: whether the model object can
      be built, the outcome of each attempt, and the timestamp taken. */
  datatype PdfRun = PdfRun(modelReady: bool, outcome: nat -> ExtractionRetry.Attempt, processedAt: string)

  /** `process_pdf(pdf_path)`: one record for the one prompt when its
      extraction is accepted, none otherwise. */
  function ProcessPdf(sizes: map<string, nat>, pdfPath: string, run: PdfRun, parse: Parser): (records: seq<Json>)
    ensures |records| <= 1
    ensures !run.modelReady || !ValidatePdf(sizes, pdfPath) ==> records == []
    ensures forall k :: 0 <= k < |records| ==> exists c :: records[k] == Record(c, pdfPath, run.processedAt)
  {
    if !run.modelReady then []
    else if !ValidatePdf(sizes, pdfPath) then []
    else
      var r := ExtractionRetry.ProcessWithRetry(MaxRetries, run.outcome, parse);
      if r.content.Some? && r.content.value != "" then [Record(r.content.value, pdfPath, run.processedAt)] else []
  }

  /** Every record the script returns holds content that passes the
      structural checks of `validate_jsonl`. */
  lemma ProcessPdfRecordsValid(sizes: map<string, nat>, pdfPath: string, run: PdfRun, parse: Parser)
    ensures forall k :: 0 <= k < |ProcessPdf(sizes, pdfPath, run, parse)| ==>
      exists c :: ProcessPdf(sizes, pdfPath, run, parse)[k] == Record(c, pdfPath, run.processedAt)
        && parse(c).Some? && ExtractionRetry.WellFormedExtraction(parse(c).value)
  {
    var records := ProcessPdf(sizes, pdfPath, run, parse);
    if records != [] {
      var r := ExtractionRetry.ProcessWithRetry(MaxRetries, run.outcome, parse);
      var c := r.content.value;
      assert records[0] == Record(c, pdfPath, run.processedAt);
    }
  }

  /** The text written for a list of records: one JSON document per line. */
  function OutputText(records: seq<Json>, dump: Printer): (r: string)
    ensures r == [] <==> records == []
    ensures records != [] ==> r[|r| - 1] == '\n'
  {
    if records == [] then [] else dump(records[0]) + "\n" + OutputText(records[1..], dump)
  }

  /** A record written by the script reads back as a line that passes. */
  lemma RecordLineOk(c: string, pdfPath: string, processedAt: string, parse: Parser, dump: Printer)
    requires RoundTrips(parse, dump)
    requires parse(c).Some? && ExtractionRetry.WellFormedExtraction(parse(c).value)
    ensures LineOk(dump(Record(c, pdfPath, processedAt)) + "\n", parse)
  {
    var r := Record(c, pdfPath, processedAt);
    assert parse(dump(r) + "\n") == Some(r);
    assert Field(r, "content") == Some(JStr(c));
  }

  /** An output file the script writes passes `validate_jsonl`: a PDF
      whose extraction succeeded is not scheduled again unless
      `retry_failed` is set. */
  lemma WrittenOutputValidates(fs: Files, path: string, sizes: map<string, nat>, pdfPath: string, run: PdfRun,
                               parse: Parser, dump: Printer)
    requires RoundTrips(parse, dump)
    requires ProcessPdf(sizes, pdfPath, run, parse) != []
    ensures ValidateJsonl(fs[path := OutputText(ProcessPdf(sizes, pdfPath, run, parse), dump)], path, parse)
  {
    var records := ProcessPdf(sizes, pdfPath, run, parse);
    ProcessPdfRecordsValid(sizes, pdfPath, run, parse);
    var c :| records[0] == Record(c, pdfPath, run.processedAt)
             && parse(c).Some? && ExtractionRetry.WellFormedExtraction(parse(c).value);
    OneRecordText(records, parse, dump);
    RecordLineOk(c, pdfPath, run.processedAt, parse, dump);
  }

  /** The records the script writes carry no `metadata.prompt`, so the
      vector store's summary loader abandons their file at its first line:
      nothing the script writes is ever stored. */
  lemma ScriptOutputNotIngested(st: VectorStore.Store, sizes: map<string, nat>, pdfPath: string, run: PdfRun,
                                parse: Parser, dump: Printer, env: VectorStore.Env)
    requires RoundTrips(parse, dump)
    requires ProcessPdf(sizes, pdfPath, run, parse) != []
    ensures VectorStore.IngestLines(st, Lines(OutputText(ProcessPdf(sizes, pdfPath, run, parse), dump)), parse, env) == st
  {
    var records := ProcessPdf(sizes, pdfPath, run, parse);
    var c :| records[0] == Record(c, pdfPath, run.processedAt);
    assert records == [records[0]];
    RecordFileNotIngested(st, c, pdfPath, run.processedAt, parse, dump, env);
  }

  lemma RecordFileNotIngested(st: VectorStore.Store, c: string, pdfPath: string, processedAt: string,
                              parse: Parser, dump: Printer, env: VectorStore.Env)
    requires RoundTrips(parse, dump)
    ensures VectorStore.IngestLines(st, Lines(OutputText([Record(c, pdfPath, processedAt)], dump)), parse, env) == st
  {
    var r := Record(c, pdfPath, processedAt);
    OneRecordText([r], parse, dump);
    var line := dump(r) + "\n";
    assert "prompt" !in Field(r, "metadata").value.fields;
    VectorStore.NoPromptAbandonsFile(st, line, [], parse, env);
    assert [line] + [] == [line];
  }

  /** The file written for one record is one line that reads back as the
      record. */
  lemma OneRecordText(records: seq<Json>, parse: Parser, dump: Printer)
    requires RoundTrips(parse, dump)
    requires |records| == 1
    ensures Lines(OutputText(records, dump)) == [dump(records[0]) + "\n"]
    ensures parse(dump(records[0]) + "\n") == Some(records[0])
  {
    var d := dump(records[0]);
    assert records[1..] == [];
    assert OutputText(records, dump) == d + "\n";
    assert '\n' !in d && '\r' !in d;
    OneLine(d);
  }

  /** The PDFs of one batch, in order: a non-empty result list is written
      to the PDF's output file, replacing it; nothing is written otherwise. */
  function ProcessList(fs: Files, pdfDir: string, outputDir: string, pdfs: seq<string>, sizes: map<string, nat>,
                       runs: string -> PdfRun, parse: Parser, dump: Printer): (r: Files)
    ensures fs.Keys <= r.Keys
    ensures forall p :: Changed(fs, r, p) ==> exists q :: q in pdfs && p == OutputPath(outputDir, q)
    decreases |pdfs|
  {
    if pdfs == [] then fs
    else
      var path := pdfDir + "/" + pdfs[0];
      var results := ProcessPdf(sizes, path, runs(pdfs[0]), parse);
      var fs' := if results != [] then fs[OutputPath(outputDir, pdfs[0]) := OutputText(results, dump)] else fs;
      var r := ProcessList(fs', pdfDir, outputDir, pdfs[1..], sizes, runs, parse, dump);
      assert forall p :: Changed(fs, r, p) ==> exists q :: q in pdfs && p == OutputPath(outputDir, q) by {
        forall p | Changed(fs, r, p) ensures exists q :: q in pdfs && p == OutputPath(outputDir, q) {
          if Changed(fs', r, p) {
            var q :| q in pdfs[1..] && p == OutputPath(outputDir, q);
            assert q in pdfs;
          } else {
            assert pdfs[0] in pdfs;
          }
        }
      }
      r
  }

  function ProcessBatches(fs: Files, pdfDir: string, outputDir: string, batches: seq<seq<string>>, sizes: map<string, nat>,
                          runs: string -> PdfRun, parse: Parser, dump: Printer): (r: Files)
    ensures fs.Keys <= r.Keys
    ensures forall p :: Changed(fs, r, p) ==> exists q :: q in Flatten(batches) && p == OutputPath(outputDir, q)
    decreases |batches|
  {
    if batches == [] then fs
    else
      var fs' := ProcessList(fs, pdfDir, outputDir, batches[0], sizes, runs, parse, dump);
      var r := ProcessBatches(fs', pdfDir, outputDir, batches[1..], sizes, runs, parse, dump);
      assert forall p :: Changed(fs, r, p) ==> exists q :: q in Flatten(batches) && p == OutputPath(outputDir, q) by {
        forall p | Changed(fs, r, p) ensures exists q :: q in Flatten(batches) && p == OutputPath(outputDir, q) {
          assert Flatten(batches) == batches[0] + Flatten(batches[1..]);
          if Changed(fs', r, p) {
            var q :| q in Flatten(batches[1..]) && p == OutputPath(outputDir, q);
            assert q in Flatten(batches);
          } else {
            assert Changed(fs, fs', p);
            var q :| q in batches[0] && p == OutputPath(outputDir, q);
            assert q in Flatten(batches);
          }
        }
      }
      r
  }

  /** `process_pdfs_parallel(pdf_dir, output_dir, max_workers, retry_failed)`
      over the listing of `*.pdf` names in `pdf_dir`: the whole schedule is
      decided first, then the batches run. */
  function ProcessPdfsParallel(fs: Files, pdfDir: string, outputDir: string, pdfs: seq<string>, retryFailed: bool,
                               sizes: map<string, nat>, runs: string -> PdfRun, parse: Parser, dump: Printer): (r: Files)
    ensures fs.Keys <= r.Keys
    ensures forall p :: Changed(fs, r, p) ==>
              exists q :: q in pdfs && NeedsProcessing(fs, outputDir, q, retryFailed, parse) && p == OutputPath(outputDir, q)
  {
    var toProcess := Schedule(fs, outputDir, pdfs, retryFailed, parse);
    FlattenBatches(toProcess, BatchSize);
    ProcessBatches(fs, pdfDir, outputDir, Batches(toProcess, BatchSize), sizes, runs, parse, dump)
  }

  lemma {:induction false} ProcessListAppend(fs: Files, pdfDir: string, outputDir: string, a: seq<string>, b: seq<string>,
                                             sizes: map<string, nat>, runs: string -> PdfRun, parse: Parser, dump: Printer)
    ensures ProcessList(fs, pdfDir, outputDir, a + b, sizes, runs, parse, dump)
         == ProcessList(ProcessList(fs, pdfDir, outputDir, a, sizes, runs, parse, dump), pdfDir, outputDir, b, sizes, runs, parse, dump)
    decreases |a|
  {
    if a == [] {
      assert a + b == b;
    } else {
      assert (a + b)[0] == a[0];
      assert (a + b)[1..] == a[1..] + b;
      var results := ProcessPdf(sizes, pdfDir + "/" + a[0], runs(a[0]), parse);
      var fs' := if results != [] then fs[OutputPath(outputDir, a[0]) := OutputText(results, dump)] else fs;
      ProcessListAppend(fs', pdfDir, outputDir, a[1..], b, sizes, runs, parse, dump);
    }
  }

  /** Cutting the work into batches changes nothing: the batches together
      do what one pass over the whole list does. */
  lemma {:induction false} BatchingIsTransparent(fs: Files, pdfDir: string, outputDir: string, batches: seq<seq<string>>,
                                                 sizes: map<string, nat>, runs: string -> PdfRun, parse: Parser, dump: Printer)
    ensures ProcessBatches(fs, pdfDir, outputDir, batches, sizes, runs, parse, dump)
         == ProcessList(fs, pdfDir, outputDir, Flatten(batches), sizes, runs, parse, dump)
    decreases |batches|
  {
    if batches != [] {
      var fs' := ProcessList(fs, pdfDir, outputDir, batches[0], sizes, runs, parse, dump);
      BatchingIsTransparent(fs', pdfDir, outputDir, batches[1..], sizes, runs, parse, dump);
      ProcessListAppend(fs, pdfDir, outputDir, batches[0], Flatten(batches[1..]), sizes, runs, parse, dump);
    }
  }

  /** A run processes exactly the scheduled PDFs, in order. */
  lemma ParallelIsSequential(fs: Files, pdfDir: string, outputDir: string, pdfs: seq<string>, retryFailed: bool,
                             sizes: map<string, nat>, runs: string -> PdfRun, parse: Parser, dump: Printer)
    ensures ProcessPdfsParallel(fs, pdfDir, outputDir, pdfs, retryFailed, sizes, runs, parse, dump)
         == ProcessList(fs, pdfDir, outputDir, Schedule(fs, outputDir, pdfs, retryFailed, parse), sizes, runs, parse, dump)
  {
    var toProcess := Schedule(fs, outputDir, pdfs, retryFailed, parse);
    BatchingIsTransparent(fs, pdfDir, outputDir, Batches(toProcess, BatchSize), sizes, runs, parse, dump);
    FlattenBatches(toProcess, BatchSize);
  }

  /** Only output files of processed PDFs change. */
  lemma {:induction false} ProcessListFrame(fs: Files, pdfDir: string, outputDir: string, pdfs: seq<string>,
                                            sizes: map<string, nat>, runs: string -> PdfRun, parse: Parser, dump: Printer, path: string)
    requires forall p :: p in pdfs ==> OutputPath(outputDir, p) != path
    ensures var fs' := ProcessList(fs, pdfDir, outputDir, pdfs, sizes, runs, parse, dump);
            (path in fs' <==> path in fs) && (path in fs ==> fs'[path] == fs[path])
    decreases |pdfs|
  {
    if pdfs != [] {
      var results := ProcessPdf(sizes, pdfDir + "/" + pdfs[0], runs(pdfs[0]), parse);
      var fs' := if results != [] then fs[OutputPath(outputDir, pdfs[0]) := OutputText(results, dump)] else fs;
      ProcessListFrame(fs', pdfDir, outputDir, pdfs[1..], sizes, runs, parse, dump, path);
    }
  }

  /** After a pass, the output file of every processed PDF whose
      extraction succeeded passes `validate_jsonl`, so a later run with
      `retry_failed` off skips it. */
  lemma {:induction false} SucceededOutputsValidate(fs: Files, pdfDir: string, outputDir: string, pdfs: seq<string>,
                                                    sizes: map<string, nat>, runs: string -> PdfRun, parse: Parser, dump: Printer)
    requires RoundTrips(parse, dump)
    ensures forall p :: p in pdfs && ProcessPdf(sizes, pdfDir + "/" + p, runs(p), parse) != [] ==>
      !NeedsProcessing(ProcessList(fs, pdfDir, outputDir, pdfs, sizes, runs, parse, dump), outputDir, p, false, parse)
    decreases |pdfs|
  {
    if pdfs != [] {
      var q := pdfs[0];
      var results := ProcessPdf(sizes, pdfDir + "/" + q, runs(q), parse);
      var fs' := if results != [] then fs[OutputPath(outputDir, q) := OutputText(results, dump)] else fs;
      var final := ProcessList(fs, pdfDir, outputDir, pdfs, sizes, runs, parse, dump);
      assert final == ProcessList(fs', pdfDir, outputDir, pdfs[1..], sizes, runs, parse, dump);
      SucceededOutputsValidate(fs', pdfDir, outputDir, pdfs[1..], sizes, runs, parse, dump);
      if results != [] {
        WrittenOutputValidates(fs, OutputPath(outputDir, q), sizes, pdfDir + "/" + q, runs(q), parse, dump);
        KeepsValid(fs', pdfDir, outputDir, pdfs[1..], sizes, runs, parse, dump, OutputPath(outputDir, q));
      }
    }
  }

  /** An output file that passes keeps passing through a pass: every
      version the script writes passes too. */
  lemma {:induction false} KeepsValid(fs: Files, pdfDir: string, outputDir: string, pdfs: seq<string>,
                                      sizes: map<string, nat>, runs: string -> PdfRun, parse: Parser, dump: Printer, path: string)
    requires RoundTrips(parse, dump)
    requires ValidateJsonl(fs, path, parse)
    ensures ValidateJsonl(ProcessList(fs, pdfDir, outputDir, pdfs, sizes, runs, parse, dump), path, parse)
    decreases |pdfs|
  {
    if pdfs != [] {
      var q := pdfs[0];
      var results := ProcessPdf(sizes, pdfDir + "/" + q, runs(q), parse);
      var fs' := if results != [] then fs[OutputPath(outputDir, q) := OutputText(results, dump)] else fs;
      if results != [] && OutputPath(outputDir, q) == path {
        WrittenOutputValidates(fs, path, sizes, pdfDir + "/" + q, runs(q), parse, dump);
      } else {
        assert path in fs' && fs'[path] == fs[path];
      }
      KeepsValid(fs', pdfDir, outputDir, pdfs[1..], sizes, runs, parse, dump, path);
    }
  }
}
