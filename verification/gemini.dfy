/** The single-shot extractor of `src/core/gemini.py`: a size check that
    works in megabytes, one request per PDF, fence removal without a final
    strip, and a directory pass that skips PDFs whose output file exists.

    The model's answer for each PDF and the timestamp taken are inputs;
    every exception inside `process_pdf` is the `Raised` answer. */
module GeminiExtractor {
  import opened Wrappers
  import opened Text
  import opened JsonModel
  import opened FileSystem
  import ExtractionRetry
  import VectorStore

  /** `MAX_FILE_SIZE_MB` of this module. */
  const MaxFileSizeMb: real := 100.0

  /** The smallest size accepted, in megabytes (about one kilobyte). */
  const MinFileSizeMb: real := 0.001

  /** `validate_pdf(pdf_path)`: the size in megabytes is
      `st_size / (1024 * 1024)`. */
  function ValidatePdf(sizes: map<string, nat>, path: string): (ok: bool)
    ensures ok ==> path in sizes && 1048 < sizes[path] <= 104857600
  {
    if path !in sizes then false
    else
      var sizeMb := (sizes[path] as real) / 1048576.0;
      if sizeMb > MaxFileSizeMb then false
      else if sizeMb < MinFileSizeMb then false
      else true
  }

  /** In bytes, the accepted sizes run from 1049 to 100 MiB inclusive: 1048
      bytes is just under a thousandth of a megabyte. */
  lemma ValidatePdfBytes(sizes: map<string, nat>, path: string)
    ensures ValidatePdf(sizes, path) <==> path in sizes && 1049 <= sizes[path] <= 104857600
  {
    if path in sizes {
      var n := sizes[path] as real;
      var mb := n / 1048576.0;
      assert n == mb * 1048576.0;
      assert mb > MaxFileSizeMb <==> n > 104857600.0;
      assert mb < MinFileSizeMb <==> n < 1048.576;
      assert sizes[path] <= 1048 <==> n < 1048.576;
    }
  }

  /** What `process_pdf` meets after validation: an exception anywhere
      (building the model, uploading, generating, reading the text), or
      the response's text. */
  datatype Answer = Raised | Answered(text: string)

  /** The content kept from an answer: stripped, then the fences dropped,
      and not stripped again. */
  function Content(text: string): (c: string)
    ensures |c| <= |text|
    ensures !StartsWith(Strip(text), "```json") && !EndsWith(Strip(text), "```") ==> c == Strip(text)
    ensures var t := Strip(text); StartsWith(t, "```json") && EndsWith(t, "```") && |t| >= 10 ==> c == t[7..|t| - 3]
  {
    var t := Strip(text);
    assert |t| >= 10 ==> t[7..][|t| - 10..] == t[|t| - 3..];
    ExtractionRetry.Unfence(t)
  }

  /** The retrying script keeps exactly this content stripped once more. */
  lemma ScriptCleansFurther(text: string)
    ensures ExtractionRetry.CleanResponse(text) == Strip(Content(text))
  {
  }

  /** The two extractors disagree on a fenced answer whose JSON sits on
      its own lines: this one keeps the line breaks inside the fences. */
  lemma FencedAnswerKeepsNewlines()
    ensures Content("```json\n{}\n```") == "\n{}\n"
    ensures ExtractionRetry.CleanResponse("```json\n{}\n```") == "{}"
  {
    var t := "```json\n{}\n```";
    VisibleAsciiIsNotSpace('`');
    StripStripped(t);
    assert t[..7] == "```json";
    var u := t[7..];
    assert u == "\n{}\n```";
    assert u[|u| - 3..] == "```";
    assert u[..|u| - 3] == "\n{}\n";
    var body := "\n{}\n";
    AsciiSpaceIsSpace('\n');
    VisibleAsciiIsNotSpace('{');
    VisibleAsciiIsNotSpace('}');
    StripOfNewlinePadded("{}");
    assert body == "\n" + "{}" + "\n";
  }

  lemma StripOfNewlinePadded(s: string)
    requires s == "{}"
    ensures Strip("\n" + s + "\n") == s
  {
    var p := "\n" + s + "\n";
    AsciiSpaceIsSpace('\n');
    VisibleAsciiIsNotSpace('{');
    VisibleAsciiIsNotSpace('}');
    assert p[0] == '\n' && p[1] == '{' && p[2] == '}' && p[3] == '\n';
    assert TrimStart(p) == TrimStart(p[1..]);
    assert p[1..][0] == '{';
    assert TrimStart(p) == p[1..];
    var q := p[1..];
    assert q == "{}\n";
    assert TrimEnd(q) == TrimEnd(q[..2]);
    assert q[..2] == "{}";
  }

  /** The record written for a PDF: the content, the path and the time;
      there is no summary type and no prompt. */
  function Record(content: string, pdfPath: string, processedAt: string): Json {
    JObj(map["content" := JStr(content),
             "metadata" := JObj(map["source_file" := JStr(pdfPath),
                                    "processed_at" := JStr(processedAt)])])
  }

  /** `process_pdf(pdf_path)`: a record when the PDF is valid, the answer
      has text, and the kept content decodes as JSON; `None` otherwise. */
  function ProcessPdf(sizes: map<string, nat>, pdfPath: string, answer: Answer, processedAt: string, parse: Parser): (r: Option<Json>)
    ensures r.Some? <==> ValidatePdf(sizes, pdfPath) && answer.Answered? && answer.text != ""
                         && parse(Content(answer.text)).Some?
    ensures r.Some? ==> r.value == Record(Content(answer.text), pdfPath, processedAt)
  {
    if !ValidatePdf(sizes, pdfPath) then None
    else
      match answer
      case Raised => None
      case Answered(text) =>
        if text == "" then None
        else
          var content := Content(text);
          if parse(content).None? then None else Some(Record(content, pdfPath, processedAt))
  }

  /** What the remote side does for one PDF, and the timestamp taken. */
  datatype Run = Run(answer: Answer, processedAt: string)

  /** One PDF of `process_directory`: skipped when its output file exists
      and `retry_failed` is off; otherwise a record replaces the output
      file with its one line, and a failure writes nothing. */
  function Step(fs: Files, sizes: map<string, nat>, pdfDir: string, outputDir: string, pdf: string,
                retryFailed: bool, run: Run, parse: Parser, dump: Printer): (r: Files)
    ensures fs.Keys <= r.Keys
    ensures Exists(fs, OutputPath(outputDir, pdf)) && !retryFailed ==> r == fs
    ensures forall p :: p != OutputPath(outputDir, pdf) ==> SameAt(fs, r, p)
  {
    var out := OutputPath(outputDir, pdf);
    if Exists(fs, out) && !retryFailed then fs
    else
      match ProcessPdf(sizes, pdfDir + "/" + pdf, run.answer, run.processedAt, parse)
      case Some(record) => fs[out := dump(record) + "\n"]
      case None => fs
  }

  /** `process_directory(pdf_dir, output_dir, retry_failed)` over the
      listing of `*.pdf` names, one PDF after the other. */
  function ProcessDirectory(fs: Files, sizes: map<string, nat>, pdfDir: string, outputDir: string, pdfs: seq<string>,
                            retryFailed: bool, runs: string -> Run, parse: Parser, dump: Printer): (r: Files)
    ensures fs.Keys <= r.Keys
    ensures forall p :: Changed(fs, r, p) ==> exists q :: q in pdfs && p == OutputPath(outputDir, q)
    decreases |pdfs|
  {
    if pdfs == [] then fs
    else
      var fs' := Step(fs, sizes, pdfDir, outputDir, pdfs[0], retryFailed, runs(pdfs[0]), parse, dump);
      var r := ProcessDirectory(fs', sizes, pdfDir, outputDir, pdfs[1..], retryFailed, runs, parse, dump);
      assert forall p :: Changed(fs, r, p) ==> exists q :: q in pdfs && p == OutputPath(outputDir, q) by {
        forall p | Changed(fs, r, p) ensures exists q :: q in pdfs && p == OutputPath(outputDir, q) {
          if Changed(fs', r, p) {
            var q :| q in pdfs[1..] && p == OutputPath(outputDir, q);
            assert q in pdfs;
          } else {
            assert Changed(fs, fs', p);
            assert pdfs[0] in pdfs;
          }
        }
      }
      r
  }

  /** A file a pass leaves different from before is one line that reads
      back as a record without `metadata.prompt`. */
  ghost predicate WrittenRecord(text: string, parse: Parser, dump: Printer) {
    exists j :: text == dump(j) + "\n" && parse(text) == Some(j)
                && Field(j, "metadata").Some? && StrField(Field(j, "metadata").value, "prompt").None?
  }

  /** One step writes at most the PDF's own output file, and writes a
      record there. */
  lemma StepWrites(fs: Files, sizes: map<string, nat>, pdfDir: string, outputDir: string, pdf: string,
                   retryFailed: bool, run: Run, parse: Parser, dump: Printer, path: string)
    requires RoundTrips(parse, dump)
    ensures var fs' := Step(fs, sizes, pdfDir, outputDir, pdf, retryFailed, run, parse, dump);
            && fs.Keys <= fs'.Keys
            && (path in fs' && (path !in fs || fs'[path] != fs[path]) ==>
                  path == OutputPath(outputDir, pdf) && WrittenRecord(fs'[path], parse, dump))
  {
    var fs' := Step(fs, sizes, pdfDir, outputDir, pdf, retryFailed, run, parse, dump);
    if path in fs' && (path !in fs || fs'[path] != fs[path]) {
      var j := ProcessPdf(sizes, pdfDir + "/" + pdf, run.answer, run.processedAt, parse).value;
      assert fs'[path] == dump(j) + "\n";
      assert parse(dump(j) + "\n") == Some(j);
    }
  }

  /** A pass only ever adds or rewrites output files of listed PDFs, and
      every file it writes is one line that reads back as a record of this
      module's shape. */
  lemma {:induction false} ProcessDirectoryWrites(fs: Files, sizes: map<string, nat>, pdfDir: string, outputDir: string,
                                                  pdfs: seq<string>, retryFailed: bool, runs: string -> Run,
                                                  parse: Parser, dump: Printer, path: string)
    requires RoundTrips(parse, dump)
    ensures var fs' := ProcessDirectory(fs, sizes, pdfDir, outputDir, pdfs, retryFailed, runs, parse, dump);
            && fs.Keys <= fs'.Keys
            && (path in fs' && (path !in fs || fs'[path] != fs[path]) ==>
                  && (exists p :: p in pdfs && path == OutputPath(outputDir, p))
                  && WrittenRecord(fs'[path], parse, dump))
    decreases |pdfs|
  {
    if pdfs != [] {
      var q := pdfs[0];
      var fs1 := Step(fs, sizes, pdfDir, outputDir, q, retryFailed, runs(q), parse, dump);
      StepWrites(fs, sizes, pdfDir, outputDir, q, retryFailed, runs(q), parse, dump, path);
      ProcessDirectoryWrites(fs1, sizes, pdfDir, outputDir, pdfs[1..], retryFailed, runs, parse, dump, path);
      var fs' := ProcessDirectory(fs, sizes, pdfDir, outputDir, pdfs, retryFailed, runs, parse, dump);
      assert fs' == ProcessDirectory(fs1, sizes, pdfDir, outputDir, pdfs[1..], retryFailed, runs, parse, dump);
      if path in fs' && (path !in fs || fs'[path] != fs[path]) {
        if path in fs1 && fs'[path] == fs1[path] && (path !in fs || fs1[path] != fs[path]) {
          assert q in pdfs;
        } else {
          var p :| p in pdfs[1..] && path == OutputPath(outputDir, p);
          assert p in pdfs;
        }
      }
    }
  }

  /** A PDF that is processed, because its output file is missing or
      `retry_failed` is on, leaves in that file the record `process_pdf`
      returned, on one line that reads back as that record; a failure
      leaves the file system as it was. */
  lemma StepProcesses(fs: Files, sizes: map<string, nat>, pdfDir: string, outputDir: string, pdf: string,
                      retryFailed: bool, run: Run, parse: Parser, dump: Printer)
    requires RoundTrips(parse, dump)
    requires !Exists(fs, OutputPath(outputDir, pdf)) || retryFailed
    ensures var fs' := Step(fs, sizes, pdfDir, outputDir, pdf, retryFailed, run, parse, dump);
            var out := OutputPath(outputDir, pdf);
            var r := ProcessPdf(sizes, pdfDir + "/" + pdf, run.answer, run.processedAt, parse);
            && (r.Some? ==> out in fs' && fs'[out] == dump(r.value) + "\n" && parse(fs'[out]) == r)
            && (r.None? ==> fs' == fs)
  {
    var r := ProcessPdf(sizes, pdfDir + "/" + pdf, run.answer, run.processedAt, parse);
    if r.Some? {
      assert parse(dump(r.value) + "\n") == Some(r.value);
    }
  }

  /** A pass leaves a file alone that is no listed PDF's output file. */
  lemma {:induction false} ProcessDirectoryFrame(fs: Files, sizes: map<string, nat>, pdfDir: string, outputDir: string,
                                                 pdfs: seq<string>, retryFailed: bool, runs: string -> Run,
                                                 parse: Parser, dump: Printer, path: string)
    requires forall p :: p in pdfs ==> OutputPath(outputDir, p) != path
    ensures SameAt(fs, ProcessDirectory(fs, sizes, pdfDir, outputDir, pdfs, retryFailed, runs, parse, dump), path)
    decreases |pdfs|
  {
    if pdfs != [] {
      var fs1 := Step(fs, sizes, pdfDir, outputDir, pdfs[0], retryFailed, runs(pdfs[0]), parse, dump);
      assert pdfs[0] in pdfs;
      assert SameAt(fs, fs1, path);
      assert forall p :: p in pdfs[1..] ==> p in pdfs;
      ProcessDirectoryFrame(fs1, sizes, pdfDir, outputDir, pdfs[1..], retryFailed, runs, parse, dump, path);
    }
  }

  /** The converse of the skip rule, for a listed PDF whose output file no
      other listed PDF shares: when the file is missing at the start or
      `retry_failed` is on, a success leaves the returned record in it on
      one line, and a failure leaves it as it was. */
  lemma {:induction false} ProcessDirectoryOutput(fs: Files, sizes: map<string, nat>, pdfDir: string, outputDir: string,
                                                  pdfs: seq<string>, i: nat, retryFailed: bool, runs: string -> Run,
                                                  parse: Parser, dump: Printer)
    requires RoundTrips(parse, dump)
    requires i < |pdfs|
    requires forall j :: 0 <= j < |pdfs| && j != i ==> OutputPath(outputDir, pdfs[j]) != OutputPath(outputDir, pdfs[i])
    requires !Exists(fs, OutputPath(outputDir, pdfs[i])) || retryFailed
    ensures var fs' := ProcessDirectory(fs, sizes, pdfDir, outputDir, pdfs, retryFailed, runs, parse, dump);
            var out := OutputPath(outputDir, pdfs[i]);
            var r := ProcessPdf(sizes, pdfDir + "/" + pdfs[i], runs(pdfs[i]).answer, runs(pdfs[i]).processedAt, parse);
            && (r.Some? ==> out in fs' && fs'[out] == dump(r.value) + "\n" && parse(fs'[out]) == r)
            && (r.None? ==> SameAt(fs, fs', out))
    decreases |pdfs|
  {
    var out := OutputPath(outputDir, pdfs[i]);
    var fs1 := Step(fs, sizes, pdfDir, outputDir, pdfs[0], retryFailed, runs(pdfs[0]), parse, dump);
    if i == 0 {
      StepProcesses(fs, sizes, pdfDir, outputDir, pdfs[0], retryFailed, runs(pdfs[0]), parse, dump);
      forall p | p in pdfs[1..] ensures OutputPath(outputDir, p) != out {
        var j :| 1 <= j < |pdfs| && pdfs[j] == p;
      }
      ProcessDirectoryFrame(fs1, sizes, pdfDir, outputDir, pdfs[1..], retryFailed, runs, parse, dump, out);
    } else {
      assert SameAt(fs, fs1, out);
      forall j | 0 <= j < |pdfs[1..]| && j != i - 1
        ensures OutputPath(outputDir, pdfs[1..][j]) != OutputPath(outputDir, pdfs[1..][i - 1])
      {
        assert pdfs[1..][j] == pdfs[j + 1];
      }
      ProcessDirectoryOutput(fs1, sizes, pdfDir, outputDir, pdfs[1..], i - 1, retryFailed, runs, parse, dump);
    }
  }

  /** Without `retry_failed`, a PDF whose output file exists is never sent
      to the model and its file is left as it was, whatever it holds. */
  lemma {:induction false} ExistingOutputKept(fs: Files, sizes: map<string, nat>, pdfDir: string, outputDir: string,
                                              pdfs: seq<string>, runs: string -> Run, parse: Parser, dump: Printer)
    requires forall p :: p in pdfs ==> Exists(fs, OutputPath(outputDir, p))
    ensures ProcessDirectory(fs, sizes, pdfDir, outputDir, pdfs, false, runs, parse, dump) == fs
    decreases |pdfs|
  {
    if pdfs != [] {
      ExistingOutputKept(fs, sizes, pdfDir, outputDir, pdfs[1..], runs, parse, dump);
    }
  }

  /** A second pass without `retry_failed` changes nothing after a first
      pass that wrote every PDF's file. */
  lemma SecondPassIsIdle(fs: Files, sizes: map<string, nat>, pdfDir: string, outputDir: string,
                         pdfs: seq<string>, retryFailed: bool, runs: string -> Run, runs2: string -> Run, parse: Parser, dump: Printer)
    requires forall p :: p in pdfs ==> Exists(ProcessDirectory(fs, sizes, pdfDir, outputDir, pdfs, retryFailed, runs, parse, dump), OutputPath(outputDir, p))
    ensures var fs' := ProcessDirectory(fs, sizes, pdfDir, outputDir, pdfs, retryFailed, runs, parse, dump);
            ProcessDirectory(fs', sizes, pdfDir, outputDir, pdfs, false, runs2, parse, dump) == fs'
  {
    var fs' := ProcessDirectory(fs, sizes, pdfDir, outputDir, pdfs, retryFailed, runs, parse, dump);
    ExistingOutputKept(fs', sizes, pdfDir, outputDir, pdfs, runs2, parse, dump);
  }

  /** Nothing a pass writes is ever stored by the vector store's summary
      loader: every file it changes starts with a record without
      `metadata.prompt`, which abandons the file. */
  lemma PassOutputNotIngested(fs: Files, sizes: map<string, nat>, pdfDir: string, outputDir: string,
                              pdfs: seq<string>, retryFailed: bool, runs: string -> Run, parse: Parser, dump: Printer,
                              path: string, st: VectorStore.Store, env: VectorStore.Env)
    requires RoundTrips(parse, dump)
    requires var fs' := ProcessDirectory(fs, sizes, pdfDir, outputDir, pdfs, retryFailed, runs, parse, dump);
             path in fs' && (path !in fs || fs'[path] != fs[path])
    ensures var fs' := ProcessDirectory(fs, sizes, pdfDir, outputDir, pdfs, retryFailed, runs, parse, dump);
            VectorStore.IngestLines(st, Lines(fs'[path]), parse, env) == st
  {
    var fs' := ProcessDirectory(fs, sizes, pdfDir, outputDir, pdfs, retryFailed, runs, parse, dump);
    ProcessDirectoryWrites(fs, sizes, pdfDir, outputDir, pdfs, retryFailed, runs, parse, dump, path);
    assert WrittenRecord(fs'[path], parse, dump);
    var j :| fs'[path] == dump(j) + "\n" && parse(fs'[path]) == Some(j)
             && Field(j, "metadata").Some? && StrField(Field(j, "metadata").value, "prompt").None?;
    OneLine(dump(j));
    VectorStore.NoPromptAbandonsFile(st, fs'[path], [], parse, env);
    assert [fs'[path]] + [] == [fs'[path]];
  }
}
