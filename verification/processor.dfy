/** The progress ledger and batch ingestion of `src/core/processor.py`.

    The ledger is a JSON file mapping a PDF name to the number of chunks
    processed for it; the path is optional, and a missing or empty path
    turns the ledger off. The `json` module is abstract (a parser and a
    printer), and results that depend on it read back correctly under
    `RoundTrips`. */
module Processor {
  import opened Wrappers
  import opened JsonModel
  import opened FileSystem
  import VectorStore

  /** Why reading or updating the ledger raises: its text is not JSON, or
      it holds something other than a dictionary, which `progress[filename]
      = n` cannot assign into. */
  datatype LedgerError = MalformedLedger | NotADict

  /** `if progress_file` for an `Optional[str]`. */
  predicate Enabled(progressFile: Option<string>) {
    progressFile.Some? && progressFile.value != ""
  }

  /** `get_processed_files(progress_file)`: the decoded file when the path
      is set and exists, `{}` otherwise. */
  function GetProcessedFiles(progressFile: Option<string>, fs: Files, parse: Parser): (r: Result<Json, LedgerError>)
    ensures !Enabled(progressFile) || !Exists(fs, progressFile.value) ==> r == Ok(JObj(map[]))
    ensures Enabled(progressFile) && Exists(fs, progressFile.value) ==>
      (r.Ok? <==> parse(fs[progressFile.value]).Some?)
  {
    if Enabled(progressFile) && Exists(fs, progressFile.value) then
      match parse(fs[progressFile.value])
      case None => Err(MalformedLedger)
      case Some(j) => Ok(j)
    else Ok(JObj(map[]))
  }

  /** `update_progress(progress_file, filename, chunks_processed)`: read the
      ledger, set one entry, write the whole ledger back. */
  function UpdateProgress(progressFile: Option<string>, filename: string, chunksProcessed: int,
                          fs: Files, parse: Parser, dump: Printer): (r: Result<Files, LedgerError>)
    ensures !Enabled(progressFile) ==> r == Ok(fs)
    ensures r.Ok? && Enabled(progressFile) ==> r.value.Keys == fs.Keys + {progressFile.value}
    ensures r.Ok? ==> forall path :: path in fs && (!Enabled(progressFile) || path != progressFile.value) ==> r.value[path] == fs[path]
  {
    if !Enabled(progressFile) then Ok(fs)
    else
      match GetProcessedFiles(progressFile, fs, parse)
      case Err(e) => Err(e)
      case Ok(JObj(entries)) => Ok(fs[progressFile.value := dump(JObj(entries[filename := JInt(chunksProcessed)]))])
      case Ok(_) => Err(NotADict)
  }

  /** The ledger as a map, `{}` when it is off, missing or not a
      dictionary. */
  function Entries(progressFile: Option<string>, fs: Files, parse: Parser): map<string, Json> {
    match GetProcessedFiles(progressFile, fs, parse)
    case Ok(JObj(entries)) => entries
    case _ => map[]
  }

  /** An update followed by a read gives back the previous ledger with only
      `filename ↦ chunks_processed` changed; nothing else in the file
      system changes. */
  lemma UpdateThenRead(progressFile: Option<string>, filename: string, n: int, fs: Files, parse: Parser, dump: Printer)
    requires RoundTrips(parse, dump)
    requires Enabled(progressFile)
    requires UpdateProgress(progressFile, filename, n, fs, parse, dump).Ok?
    ensures var fs' := UpdateProgress(progressFile, filename, n, fs, parse, dump).value;
            && GetProcessedFiles(progressFile, fs', parse) == Ok(JObj(Entries(progressFile, fs, parse)[filename := JInt(n)]))
            && forall path :: path != progressFile.value ==> (path in fs' <==> path in fs)
  {
    var fs' := UpdateProgress(progressFile, filename, n, fs, parse, dump).value;
    var entries := Entries(progressFile, fs, parse);
    var j := JObj(entries[filename := JInt(n)]);
    assert fs'[progressFile.value] == dump(j);
    assert parse(dump(j)) == Some(j);
  }

  /** A missing ledger file starts as `{}`: the first update creates it with
      the single entry. */
  lemma FirstUpdate(path: string, filename: string, n: int, fs: Files, parse: Parser, dump: Printer)
    requires RoundTrips(parse, dump)
    requires path != "" && !Exists(fs, path)
    ensures UpdateProgress(Some(path), filename, n, fs, parse, dump) == Ok(fs[path := dump(JObj(map[filename := JInt(n)]))])
    ensures Entries(Some(path), UpdateProgress(Some(path), filename, n, fs, parse, dump).value, parse) == map[filename := JInt(n)]
  {
    var j := JObj(map[filename := JInt(n)]);
    assert map[][filename := JInt(n)] == map[filename := JInt(n)];
    assert parse(dump(j)) == Some(j);
  }

  /** Updates of two different files commute: each key is set on its own. */
  lemma UpdatesCommute(path: string, a: string, m: int, b: string, n: int, fs: Files, parse: Parser, dump: Printer)
    requires RoundTrips(parse, dump)
    requires path != "" && a != b
    requires UpdateProgress(Some(path), a, m, fs, parse, dump).Ok?
    ensures var ab := UpdateProgress(Some(path), b, n, UpdateProgress(Some(path), a, m, fs, parse, dump).value, parse, dump);
            && ab.Ok?
            && Entries(Some(path), ab.value, parse) == Entries(Some(path), fs, parse)[a := JInt(m)][b := JInt(n)]
            && Entries(Some(path), ab.value, parse) == Entries(Some(path), fs, parse)[b := JInt(n)][a := JInt(m)]
  {
    var p := Some(path);
    var fs1 := UpdateProgress(p, a, m, fs, parse, dump).value;
    UpdateThenRead(p, a, m, fs, parse, dump);
    var e1 := Entries(p, fs, parse)[a := JInt(m)];
    assert GetProcessedFiles(p, fs1, parse) == Ok(JObj(e1));
    assert Entries(p, fs1, parse) == e1;
    UpdateThenRead(p, b, n, fs1, parse, dump);
    assert e1[b := JInt(n)] == Entries(p, fs, parse)[b := JInt(n)][a := JInt(m)];
  }

  /** A ledger file whose text is not JSON makes every update raise. */
  lemma MalformedLedgerRaises(path: string, filename: string, n: int, fs: Files, parse: Parser, dump: Printer)
    requires path != "" && Exists(fs, path) && parse(fs[path]).None?
    ensures UpdateProgress(Some(path), filename, n, fs, parse, dump) == Err(MalformedLedger)
  {
  }

  /** The ingest arguments of `process_batch`: every chunk, with
      `source = pdf_path` and the default type and prompt. */
  function BatchItems(batch: seq<string>, pdfPath: string): (items: seq<VectorStore.Item>)
    ensures |items| == |batch|
    ensures forall k :: 0 <= k < |batch| ==> items[k] == VectorStore.DefaultItem(batch[k], pdfPath)
  {
    if batch == [] then [] else [VectorStore.DefaultItem(batch[0], pdfPath)] + BatchItems(batch[1..], pdfPath)
  }

  /** `process_batch(batch, db, pdf_path)`: every chunk is ingested in order
      and the first failure is re-raised. */
  function ProcessBatch(st: VectorStore.Store, batch: seq<string>, pdfPath: string, env: VectorStore.Env): (o: VectorStore.Outcome)
    ensures st.calls <= o.store.calls <= st.calls + |batch|
    ensures o.error.None? ==> o.store.calls == st.calls + |batch|
    ensures |st.documents| <= |o.store.documents| && o.store.documents[..|st.documents|] == st.documents
  {
    VectorStore.IngestAll(st, BatchItems(batch, pdfPath), env)
  }

  /** Without failures the batch is stored in order, blank chunks included,
      one document row per chunk; with one, the rows stored before it
      stay. */
  lemma ProcessBatchRows(st: VectorStore.Store, batch: seq<string>, pdfPath: string, env: VectorStore.Env)
    requires VectorStore.Consistent(st)
    ensures var o := ProcessBatch(st, batch, pdfPath, env);
            && |st.documents| <= |o.store.documents|
            && o.store.documents[..|st.documents|] == st.documents
            && VectorStore.WellFormed(o.store)
            && (o.error.None? ==>
                  && VectorStore.Consistent(o.store)
                  && |o.store.documents| == |st.documents| + |batch|
                  && forall k :: 0 <= k < |batch| ==>
                       VectorStore.Stores(o.store.documents[|st.documents| + k], VectorStore.DefaultItem(batch[k], pdfPath)))
  {
    var items := BatchItems(batch, pdfPath);
    VectorStore.IngestAllKeepsRows(st, items, env);
    if ProcessBatch(st, batch, pdfPath, env).error.None? {
      VectorStore.IngestAllSuccess(st, items, env);
    }
  }
}
