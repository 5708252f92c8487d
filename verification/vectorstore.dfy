/** The vector store of `src/core/vectordb.py` (`VectorDB`), with its two
    tables held as sequences of rows. The text encoder, the id generator
    and the points where a call can fail come from an environment; cosine
    distance is an uninterpreted function.

    `ingest` inserts the document row, then computes the embedding, then
    inserts the embedding row, with no transaction around the two inserts:
    a failure between them leaves a document without an embedding. */
module VectorStore {
  import opened Wrappers
  import opened Text
  import Sorting
  import opened JsonModel
  import PdfPages

  /** Width of the vectors the encoder produces and the search casts to. */
  const Dim: nat := 1024

  /** A row of the `documents` table. */
  datatype Document = Document(id: string, content: string, source: string, embeddingType: string, prompt: string)

  /** A row of the `embeddings` table. */
  datatype Embedding = Embedding(documentId: string, vector: seq<real>)

  /** The two tables, and how many `ingest` calls the store has seen (it
      indexes the environment's streams of ids and faults). */
  datatype Store = Store(documents: seq<Document>, embeddings: seq<Embedding>, calls: nat)

  /** The step at which one `ingest` call fails, if any. */
  datatype Fault = NoFault | DocumentInsertFails | EncoderFails | EmbeddingInsertFails | CommitFails

  /** The world outside the store: `uuid4()` and the fault of the n-th
      `ingest` call, and the text encoder. */
  datatype Env = Env(uuid: nat -> string, fault: nat -> Fault, encode: string -> seq<real>)

  /** What `ingest` re-raises. */
  datatype StoreError = DuplicateKey | InsertFailed | EncoderFailed | CommitFailed

  /** The store after a call, and the exception it raised, if any. */
  datatype Outcome = Outcome(store: Store, error: Option<StoreError>)

  /** The arguments of one `ingest` call. */
  datatype Item = Item(content: string, source: string, summaryType: string, prompt: string)

  const EmptyStore := Store([], [], 0)

  /** `get_document_count()`: zero exactly when no document is stored. */
  function DocumentCount(st: Store): (n: nat)
    ensures n == 0 <==> forall id :: !HasDocument(st, id)
  {
    assert st.documents != [] ==> HasDocument(st, st.documents[0].id);
    |st.documents|
  }

  /** `get_embedding_count()`: zero exactly when no embedding is stored;
      along failure-free histories it is the document count. */
  function EmbeddingCount(st: Store): (n: nat)
    ensures n == 0 <==> forall id :: !HasEmbedding(st, id)
    ensures Consistent(st) ==> n == DocumentCount(st)
  {
    assert st.embeddings != [] ==> HasEmbedding(st, st.embeddings[0].documentId);
    |st.embeddings|
  }

  predicate HasDocument(st: Store, id: string) {
    exists i :: 0 <= i < |st.documents| && st.documents[i].id == id
  }

  predicate HasEmbedding(st: Store, id: string) {
    exists j :: 0 <= j < |st.embeddings| && st.embeddings[j].documentId == id
  }

  /** Both primary keys hold, and every embedding row belongs to a
      document: the invariant every history keeps, failures included. */
  predicate WellFormed(st: Store) {
    && (forall i, j :: 0 <= i < j < |st.documents| ==> st.documents[i].id != st.documents[j].id)
    && (forall i, j :: 0 <= i < j < |st.embeddings| ==> st.embeddings[i].documentId != st.embeddings[j].documentId)
    && (forall j :: 0 <= j < |st.embeddings| ==> HasDocument(st, st.embeddings[j].documentId))
  }

  /** The n-th document row and the n-th embedding row belong together, so
      the two counts agree: the invariant of failure-free histories. */
  predicate Consistent(st: Store) {
    && WellFormed(st)
    && |st.documents| == |st.embeddings|
    && (forall i :: 0 <= i < |st.documents| ==> st.embeddings[i].documentId == st.documents[i].id)
  }

  /** `ingest(content, source, summary_type, prompt)`. */
  function Ingest(st: Store, item: Item, env: Env): (o: Outcome)
    ensures o.store.calls == st.calls + 1
    ensures o.error.None? ==>
      && o.store.documents == st.documents + [Document(env.uuid(st.calls), item.content, item.source, item.summaryType, item.prompt)]
      && o.store.embeddings == st.embeddings + [Embedding(env.uuid(st.calls), env.encode(item.content))]
    ensures o.error.Some? ==>
      && |st.documents| <= |o.store.documents| <= |st.documents| + 1
      && o.store.documents[..|st.documents|] == st.documents
      && |st.embeddings| <= |o.store.embeddings| <= |st.embeddings| + 1
      && o.store.embeddings[..|st.embeddings|] == st.embeddings
  {
    var id := env.uuid(st.calls);
    var fault := env.fault(st.calls);
    var counted := st.(calls := st.calls + 1);
    if HasDocument(st, id) then Outcome(counted, Some(DuplicateKey))
    else if fault == DocumentInsertFails then Outcome(counted, Some(InsertFailed))
    else
      var withDoc := counted.(documents := st.documents + [Document(id, item.content, item.source, item.summaryType, item.prompt)]);
      if fault == EncoderFails then Outcome(withDoc, Some(EncoderFailed))
      else if HasEmbedding(st, id) then Outcome(withDoc, Some(DuplicateKey))
      else if fault == EmbeddingInsertFails then Outcome(withDoc, Some(InsertFailed))
      else
        var withBoth := withDoc.(embeddings := st.embeddings + [Embedding(id, env.encode(item.content))]);
        if fault == CommitFails then Outcome(withBoth, Some(CommitFailed))
        else Outcome(withBoth, None)
  }

  /** `ingest` with the default `summary_type` and `prompt`. */
  function DefaultItem(content: string, source: string): (item: Item)
    ensures item.summaryType == "finding" && item.prompt == ""
    ensures item.content == content && item.source == source
  {
    Item(content, source, "finding", "")
  }

  /** Every `ingest` call keeps both primary keys and leaves no embedding
      row without its document, whatever step it fails at. */
  lemma IngestKeepsWellFormed(st: Store, item: Item, env: Env)
    requires WellFormed(st)
    ensures WellFormed(Ingest(st, item, env).store)
  {
    var o := Ingest(st, item, env);
    var id := env.uuid(st.calls);
    if !HasDocument(st, id) && env.fault(st.calls) != DocumentInsertFails {
      var n := |st.documents|;
      assert o.store.documents[n].id == id;
      forall j | 0 <= j < |o.store.embeddings|
        ensures HasDocument(o.store, o.store.embeddings[j].documentId)
      {
        if j < |st.embeddings| {
          var i :| 0 <= i < |st.documents| && st.documents[i].id == st.embeddings[j].documentId;
          assert o.store.documents[i] == st.documents[i];
        } else {
          assert o.store.embeddings[j].documentId == id;
        }
      }
    }
  }

  /** A successful `ingest` adds one document row and one embedding row
      under a fresh id, each count grows by one, and the rows stay paired. */
  lemma IngestSuccessKeepsConsistent(st: Store, item: Item, env: Env)
    requires Consistent(st)
    requires Ingest(st, item, env).error.None?
    ensures Consistent(Ingest(st, item, env).store)
    ensures DocumentCount(Ingest(st, item, env).store) == DocumentCount(st) + 1
    ensures EmbeddingCount(Ingest(st, item, env).store) == EmbeddingCount(st) + 1
    ensures !HasDocument(st, env.uuid(st.calls))
  {
    IngestKeepsWellFormed(st, item, env);
  }

  /** The missing rollback: an encoder failure after the document insert
      leaves the counts unequal. */
  lemma EncoderFailureBreaksCounts(st: Store, item: Item, env: Env)
    requires Consistent(st)
    requires !HasDocument(st, env.uuid(st.calls))
    requires env.fault(st.calls) == EncoderFails
    ensures Ingest(st, item, env).error == Some(EncoderFailed)
    ensures DocumentCount(Ingest(st, item, env).store) == EmbeddingCount(Ingest(st, item, env).store) + 1
    ensures !Consistent(Ingest(st, item, env).store)
  {
  }

  /** Ingests the items in order and re-raises the first failure, keeping
      what was stored before it. */
  function IngestAll(st: Store, items: seq<Item>, env: Env): (o: Outcome)
    ensures st.calls < o.store.calls <= st.calls + |items| || (items == [] && o.store == st)
    ensures o.error.None? ==> o.store.calls == st.calls + |items|
    ensures |st.documents| <= |o.store.documents| && o.store.documents[..|st.documents|] == st.documents
    decreases |items|
  {
    if items == [] then Outcome(st, None)
    else
      var first := Ingest(st, items[0], env);
      if first.error.Some? then first
      else
        var o := IngestAll(first.store, items[1..], env);
        assert o.store.documents[..|st.documents|] == o.store.documents[..|first.store.documents|][..|st.documents|];
        o
  }

  /** `st` is `st0` with one paired document row per item appended, in
      order, each holding its item's fields. */
  predicate Grows(st0: Store, st: Store, items: seq<Item>) {
    && Consistent(st)
    && |st.documents| == |st0.documents| + |items|
    && st.documents[..|st0.documents|] == st0.documents
    && forall k :: 0 <= k < |items| ==> Stores(st.documents[|st0.documents| + k], items[k])
  }

  /** Without failures, `IngestAll` appends one document row per item, in
      order, with the item's fields, and keeps the tables paired. */
  lemma {:induction false} IngestAllSuccess(st: Store, items: seq<Item>, env: Env)
    requires Consistent(st)
    requires IngestAll(st, items, env).error.None?
    ensures Grows(st, IngestAll(st, items, env).store, items)
    decreases |items|
  {
    if items != [] {
      var first := Ingest(st, items[0], env);
      IngestSuccessKeepsConsistent(st, items[0], env);
      IngestAllSuccess(first.store, items[1..], env);
      var last := IngestAll(first.store, items[1..], env).store;
      assert IngestAll(st, items, env).store == last;
      var d := first.store.documents[|st.documents|];
      assert first.store.documents == st.documents + [d];
      GrowsStep(st, d, first.store, last, items);
    } else {
      assert IngestAll(st, items, env).store == st;
      assert st.documents[..|st.documents|] == st.documents;
    }
  }

  /** One stored row followed by the rows of the items after it. */
  lemma GrowsStep(st: Store, d: Document, mid: Store, last: Store, items: seq<Item>)
    requires items != [] && Stores(d, items[0])
    requires mid.documents == st.documents + [d]
    requires Grows(mid, last, items[1..])
    ensures Grows(st, last, items)
  {
    var docs := last.documents;
    assert docs[..|st.documents|] == mid.documents[..|st.documents|];
    forall k | 0 <= k < |items|
      ensures Stores(docs[|st.documents| + k], items[k])
    {
      if k == 0 {
        assert docs[|st.documents|] == mid.documents[|st.documents|];
      } else {
        assert items[k] == items[1..][k - 1];
      }
    }
  }

  /** The document row holds the item's fields. */
  predicate Stores(d: Document, item: Item) {
    d.content == item.content && d.source == item.source && d.embeddingType == item.summaryType && d.prompt == item.prompt
  }

  /** Whatever happens, `IngestAll` never removes or rewrites a row and
      keeps the store well formed. */
  lemma {:induction false} IngestAllKeepsRows(st: Store, items: seq<Item>, env: Env)
    requires WellFormed(st)
    ensures WellFormed(IngestAll(st, items, env).store)
    ensures |st.documents| <= |IngestAll(st, items, env).store.documents|
    ensures IngestAll(st, items, env).store.documents[..|st.documents|] == st.documents
    decreases |items|
  {
    if items != [] {
      var first := Ingest(st, items[0], env);
      IngestKeepsWellFormed(st, items[0], env);
      if first.error.None? {
        IngestAllKeepsRows(first.store, items[1..], env);
        var docs := IngestAll(st, items, env).store.documents;
        assert docs[..|st.documents|] == docs[..|first.store.documents|][..|st.documents|];
      }
    }
  }

  // ---------------------------------------------------------------------
  // search

  /** One result of `search`. */
  datatype Hit = Hit(id: string, content: string, source: string, embeddingType: string, similarity: real)

  /** The world `search` sees: the encoder, cosine distance between two
      vectors, and whether the call raises anywhere (it then returns []). */
  datatype SearchEnv = SearchEnv(encode: string -> seq<real>, distance: (seq<real>, seq<real>) -> real, raises: bool)

  /** `if summary_type:` — a missing or empty type means no filter. */
  predicate Filters(summaryType: Option<string>) {
    summaryType.Some? && summaryType.value != ""
  }

  predicate PassesFilter(d: Document, summaryType: Option<string>) {
    !Filters(summaryType) || d.embeddingType == summaryType.value
  }

  /** The rows of `documents JOIN embeddings` that pass the `WHERE` clause,
      as (document, embedding) pairs, in document order. */
  function Joined(docs: seq<Document>, embs: seq<Embedding>, summaryType: Option<string>): (r: seq<(Document, Embedding)>)
    ensures forall k :: 0 <= k < |r| ==> r[k].0 in docs && r[k].1 in embs
    ensures forall k :: 0 <= k < |r| ==> r[k].1.documentId == r[k].0.id && PassesFilter(r[k].0, summaryType)
  {
    if docs == [] then []
    else
      var d := docs[0];
      var here := if PassesFilter(d, summaryType) then MatchesOf(d, embs) else [];
      here + Joined(docs[1..], embs, summaryType)
  }

  /** The embedding rows of one document, paired with it. */
  function MatchesOf(d: Document, embs: seq<Embedding>): (r: seq<(Document, Embedding)>)
    ensures forall k :: 0 <= k < |r| ==> r[k].0 == d && r[k].1 in embs && r[k].1.documentId == d.id
  {
    if embs == [] then []
    else (if embs[0].documentId == d.id then [(d, embs[0])] else []) + MatchesOf(d, embs[1..])
  }

  /** `(1.0 - distance) as similarity` for every joined row. */
  function Scored(rows: seq<(Document, Embedding)>, q: seq<real>, env: SearchEnv): (r: seq<Hit>)
    ensures |r| == |rows|
    ensures forall k :: 0 <= k < |rows| ==>
      r[k] == Hit(rows[k].0.id, rows[k].0.content, rows[k].0.source, rows[k].0.embeddingType,
                  1.0 - env.distance(rows[k].1.vector, q))
  {
    if rows == [] then []
    else
      var d := rows[0].0;
      [Hit(d.id, d.content, d.source, d.embeddingType, 1.0 - env.distance(rows[0].1.vector, q))]
        + Scored(rows[1..], q, env)
  }

  /** Every vector the query casts to `FLOAT[1024]` has that width. */
  predicate CastsSucceed(rows: seq<(Document, Embedding)>, q: seq<real>) {
    |q| == Dim && forall k :: 0 <= k < |rows| ==> |rows[k].1.vector| == Dim
  }

  /** The sort key of `ORDER BY distance ASC`: a hit's distance is one
      minus its similarity. */
  function Distance(h: Hit): real {
    1.0 - h.similarity
  }

  /** Every hit the query could return, before ordering and `LIMIT`. */
  function Candidates(st: Store, query: string, summaryType: Option<string>, env: SearchEnv): seq<Hit> {
    Scored(Joined(st.documents, st.embeddings, summaryType), env.encode(query), env)
  }

  /** The stored document behind a hit has an embedding row and the hit's
      fields. */
  predicate Backed(st: Store, h: Hit) {
    exists i :: 0 <= i < |st.documents| && st.documents[i].id == h.id
      && st.documents[i].content == h.content && st.documents[i].source == h.source
      && st.documents[i].embeddingType == h.embeddingType
      && HasEmbedding(st, h.id)
  }

  /** Every candidate is a stored document with an embedding row that
      passes the type filter. */
  lemma CandidatesBacked(st: Store, query: string, summaryType: Option<string>, env: SearchEnv)
    ensures forall h :: h in Candidates(st, query, summaryType, env) ==>
      Backed(st, h) && (Filters(summaryType) ==> h.embeddingType == summaryType.value)
  {
    var rows := Joined(st.documents, st.embeddings, summaryType);
    var hs := Candidates(st, query, summaryType, env);
    forall h | h in hs
      ensures Backed(st, h) && (Filters(summaryType) ==> h.embeddingType == summaryType.value)
    {
      var k :| 0 <= k < |hs| && hs[k] == h;
      var d, e := rows[k].0, rows[k].1;
      var i :| 0 <= i < |st.documents| && st.documents[i] == d;
      var j :| 0 <= j < |st.embeddings| && st.embeddings[j] == e;
      assert HasEmbedding(st, h.id);
    }
  }

  /** `search(query, top_k, summary_type)`. */
  function Search(st: Store, query: string, topK: int, summaryType: Option<string>, env: SearchEnv): (r: seq<Hit>)
    ensures env.raises || topK < 0 ==> r == []
    ensures |r| <= if topK < 0 then 0 else topK
    ensures forall h :: h in r ==> h in Candidates(st, query, summaryType, env)
    ensures Sorting.SortedBy(r, Distance)
  {
    var q := env.encode(query);
    var rows := Joined(st.documents, st.embeddings, summaryType);
    if env.raises || !CastsSucceed(rows, q) || topK < 0 then []
    else
      var sorted := Sorting.SortBy(Candidates(st, query, summaryType, env), Distance);
      var n := if topK <= |sorted| then topK else |sorted|;
      SortedPrefix(sorted, n);
      assert forall h :: h in sorted[..n] ==> h in multiset(sorted);
      sorted[..n]
  }

  lemma SortedPrefix(xs: seq<Hit>, n: nat)
    requires n <= |xs|
    requires Sorting.SortedBy(xs, Distance)
    ensures Sorting.SortedBy(xs[..n], Distance)
  {
    assert forall i :: 0 <= i < n ==> xs[..n][i] == xs[i];
  }

  /** The results are in non-increasing similarity. */
  lemma SearchSimilarityDescends(st: Store, query: string, topK: int, summaryType: Option<string>, env: SearchEnv)
    ensures forall i, j :: 0 <= i < j < |Search(st, query, topK, summaryType, env)| ==>
      Search(st, query, topK, summaryType, env)[i].similarity >= Search(st, query, topK, summaryType, env)[j].similarity
  {
    var r := Search(st, query, topK, summaryType, env);
    forall i, j | 0 <= i < j < |r|
      ensures r[i].similarity >= r[j].similarity
    {
      assert Distance(r[i]) <= Distance(r[j]);
    }
  }

  /** Each result is a stored document with an embedding row (the inner
      join), and when a type filter is given, of that type. */
  lemma SearchResultsBacked(st: Store, query: string, topK: int, summaryType: Option<string>, env: SearchEnv)
    ensures forall h :: h in Search(st, query, topK, summaryType, env) ==>
      Backed(st, h) && (Filters(summaryType) ==> h.embeddingType == summaryType.value)
  {
    CandidatesBacked(st, query, summaryType, env);
  }

  /** When the query succeeds, its results are the `top_k` best candidates:
      exactly `min(top_k, #candidates)` of them, and every candidate left
      out is no more similar than any candidate returned. */
  lemma {:induction false} SearchIsTopK(st: Store, query: string, topK: int, summaryType: Option<string>, env: SearchEnv)
    requires !env.raises && topK >= 0
    requires CastsSucceed(Joined(st.documents, st.embeddings, summaryType), env.encode(query))
    ensures var all := Candidates(st, query, summaryType, env);
            var r := Search(st, query, topK, summaryType, env);
            && |r| == (if topK <= |all| then topK else |all|)
            && multiset(r) <= multiset(all)
            && forall x, y :: x in multiset(all) - multiset(r) && y in r ==> x.similarity <= y.similarity
  {
    var all := Candidates(st, query, summaryType, env);
    var sorted := Sorting.SortBy(all, Distance);
    var n := if topK <= |sorted| then topK else |sorted|;
    var r := Search(st, query, topK, summaryType, env);
    assert r == sorted[..n];
    SortedSplit(sorted, n);
    assert multiset(all) - multiset(r) == multiset(sorted[n..]);
    forall x: Hit, y: Hit | x in multiset(all) - multiset(r) && y in r
      ensures x.similarity <= y.similarity
    {
      assert x in sorted[n..];
    }
  }

  /** Cutting a list sorted by distance after `n` elements leaves behind
      only elements no more similar than the ones kept. */
  lemma SortedSplit(sorted: seq<Hit>, n: nat)
    requires n <= |sorted|
    requires Sorting.SortedBy(sorted, Distance)
    ensures multiset(sorted[..n]) + multiset(sorted[n..]) == multiset(sorted)
    ensures forall x, y :: x in sorted[n..] && y in sorted[..n] ==> x.similarity <= y.similarity
  {
    assert sorted == sorted[..n] + sorted[n..];
    forall x, y | x in sorted[n..] && y in sorted[..n]
      ensures x.similarity <= y.similarity
    {
      var a :| 0 <= a < |sorted[n..]| && sorted[n..][a] == x;
      var b :| 0 <= b < n && sorted[..n][b] == y;
      assert sorted[n + a] == x && sorted[b] == y;
      assert Distance(sorted[b]) <= Distance(sorted[n + a]);
    }
  }

  /** With no type filter every document that has an embedding row is a
      candidate: nothing but the type decides which rows are searched. */
  lemma UnfilteredCandidatesCount(st: Store, query: string, env: SearchEnv)
    requires Consistent(st)
    ensures |Candidates(st, query, None, env)| == |st.documents|
  {
    JoinedConsistent(st.documents, st.embeddings);
  }

  lemma {:induction false} JoinedConsistent(docs: seq<Document>, embs: seq<Embedding>)
    requires |docs| == |embs|
    requires forall i :: 0 <= i < |docs| ==> embs[i].documentId == docs[i].id
    requires forall i, j :: 0 <= i < j < |embs| ==> embs[i].documentId != embs[j].documentId
    ensures |Joined(docs, embs, None)| == |docs|
  {
    forall i | 0 <= i < |docs|
      ensures CountId(embs, docs[i].id) == 1
    {
      CountUnique(embs, i);
    }
    JoinedCount(docs, embs);
  }

  /** How many embedding rows carry `id`. */
  function CountId(embs: seq<Embedding>, id: string): nat {
    if embs == [] then 0 else (if embs[0].documentId == id then 1 else 0) + CountId(embs[1..], id)
  }

  lemma {:induction false} CountUnique(embs: seq<Embedding>, j: nat)
    requires j < |embs|
    requires forall a, b :: 0 <= a < b < |embs| ==> embs[a].documentId != embs[b].documentId
    ensures CountId(embs, embs[j].documentId) == 1
  {
    if j == 0 {
      CountAbsent(embs[1..], embs[0].documentId);
    } else {
      assert embs[1..][j - 1] == embs[j];
      CountUnique(embs[1..], j - 1);
    }
  }

  lemma {:induction false} CountAbsent(embs: seq<Embedding>, id: string)
    requires forall a :: 0 <= a < |embs| ==> embs[a].documentId != id
    ensures CountId(embs, id) == 0
  {
    if embs != [] {
      CountAbsent(embs[1..], id);
    }
  }

  lemma {:induction false} MatchesCount(d: Document, embs: seq<Embedding>)
    ensures |MatchesOf(d, embs)| == CountId(embs, d.id)
  {
    if embs != [] {
      MatchesCount(d, embs[1..]);
    }
  }

  lemma {:induction false} JoinedCount(docs: seq<Document>, embs: seq<Embedding>)
    requires forall i :: 0 <= i < |docs| ==> CountId(embs, docs[i].id) == 1
    ensures |Joined(docs, embs, None)| == |docs|
  {
    if docs != [] {
      MatchesCount(docs[0], embs);
      JoinedCount(docs[1..], embs);
    }
  }

  // ---------------------------------------------------------------------
  // bulk ingestion

  /** `ingest_pdf(pdf_path)`: the chunks of the page filter whose `strip()`
      is non-empty are ingested in order with `source = pdf_path`; the
      first failure is re-raised. */
  function IngestPdf(st: Store, pdfPath: string, chunks: seq<string>, env: Env): (o: Outcome)
    ensures st.calls <= o.store.calls <= st.calls + |NonBlank(chunks)|
    ensures o.error.None? ==> o.store.calls == st.calls + |NonBlank(chunks)|
    ensures |st.documents| <= |o.store.documents| && o.store.documents[..|st.documents|] == st.documents
  {
    PdfItemsAreNonBlank(pdfPath, chunks);
    IngestAll(st, PdfItems(pdfPath, chunks), env)
  }

  function PdfItems(pdfPath: string, chunks: seq<string>): (items: seq<Item>)
    ensures forall k :: 0 <= k < |items| ==> Strip(items[k].content) != [] && items[k] == DefaultItem(items[k].content, pdfPath)
  {
    if chunks == [] then []
    else (if Strip(chunks[0]) != [] then [DefaultItem(chunks[0], pdfPath)] else []) + PdfItems(pdfPath, chunks[1..])
  }

  /** The non-blank chunks, in order. */
  function NonBlank(chunks: seq<string>): seq<string> {
    if chunks == [] then []
    else (if Strip(chunks[0]) != [] then [chunks[0]] else []) + NonBlank(chunks[1..])
  }

  /** Without failures, `ingest_pdf` stores exactly the non-blank chunks, in
      order, under `source = pdf_path` with the default type and prompt. */
  lemma IngestPdfSuccess(st: Store, pdfPath: string, chunks: seq<string>, env: Env)
    requires Consistent(st)
    requires IngestPdf(st, pdfPath, chunks, env).error.None?
    ensures var docs := IngestPdf(st, pdfPath, chunks, env).store.documents;
            && Consistent(IngestPdf(st, pdfPath, chunks, env).store)
            && |docs| == |st.documents| + |NonBlank(chunks)|
            && docs[..|st.documents|] == st.documents
            && forall k :: 0 <= k < |NonBlank(chunks)| ==>
                 Stores(docs[|st.documents| + k], DefaultItem(NonBlank(chunks)[k], pdfPath))
  {
    var items := PdfItems(pdfPath, chunks);
    PdfItemsAreNonBlank(pdfPath, chunks);
    IngestAllSuccess(st, items, env);
  }

  /** `ingest_pdf` over the page filter's stream: the `""` that ends the
      stream after an extraction error is never stored, and without
      failures every new row is a page text under `source = pdf_path`. */
  lemma IngestPdfPages(st: Store, pdfPath: string, extracted: Option<seq<PdfPages.Element>>, env: Env)
    requires Consistent(st)
    requires IngestPdf(st, pdfPath, PdfPages.ProcessPdf(extracted), env).error.None?
    ensures var docs := IngestPdf(st, pdfPath, PdfPages.ProcessPdf(extracted), env).store.documents;
            forall k :: |st.documents| <= k < |docs| ==>
              docs[k].content != "" && Strip(docs[k].content) != [] && docs[k].source == pdfPath
  {
    IngestPdfRows(st, pdfPath, PdfPages.ProcessPdf(extracted), env);
  }

  /** Without failures every row `ingest_pdf` adds holds a chunk whose
      `strip()` is non-empty, under `source = pdf_path`. */
  lemma IngestPdfRows(st: Store, pdfPath: string, chunks: seq<string>, env: Env)
    requires Consistent(st)
    requires IngestPdf(st, pdfPath, chunks, env).error.None?
    ensures var docs := IngestPdf(st, pdfPath, chunks, env).store.documents;
            forall k :: |st.documents| <= k < |docs| ==>
              docs[k].content != "" && Strip(docs[k].content) != [] && docs[k].source == pdfPath
  {
    var docs := IngestPdf(st, pdfPath, chunks, env).store.documents;
    var kept := NonBlank(chunks);
    IngestPdfSuccess(st, pdfPath, chunks, env);
    NonBlankIsNonBlank(chunks);
    forall k | |st.documents| <= k < |docs|
      ensures docs[k].content != "" && Strip(docs[k].content) != [] && docs[k].source == pdfPath
    {
      var i := k - |st.documents|;
      assert Stores(docs[|st.documents| + i], DefaultItem(kept[i], pdfPath));
      assert Strip(kept[i]) != [];
    }
  }

  /** No kept chunk strips to nothing, so none is `""`. */
  lemma {:induction false} NonBlankIsNonBlank(chunks: seq<string>)
    ensures forall c :: c in NonBlank(chunks) ==> Strip(c) != [] && c != ""
  {
    if chunks != [] {
      NonBlankIsNonBlank(chunks[1..]);
      if Strip(chunks[0]) == [] {
        assert NonBlank(chunks) == NonBlank(chunks[1..]);
      } else {
        assert Strip("") == [];
      }
    }
  }

  lemma {:induction false} PdfItemsAreNonBlank(pdfPath: string, chunks: seq<string>)
    ensures |PdfItems(pdfPath, chunks)| == |NonBlank(chunks)|
    ensures forall k :: 0 <= k < |NonBlank(chunks)| ==> PdfItems(pdfPath, chunks)[k] == DefaultItem(NonBlank(chunks)[k], pdfPath)
  {
    if chunks != [] {
      PdfItemsAreNonBlank(pdfPath, chunks[1..]);
      var items, kept := PdfItems(pdfPath, chunks[1..]), NonBlank(chunks[1..]);
      if Strip(chunks[0]) != [] {
        assert PdfItems(pdfPath, chunks) == [DefaultItem(chunks[0], pdfPath)] + items;
        assert NonBlank(chunks) == [chunks[0]] + kept;
      } else {
        assert PdfItems(pdfPath, chunks) == items;
        assert NonBlank(chunks) == kept;
      }
    }
  }

  // ---------------------------------------------------------------------
  // ingest_gemini_summaries

  /** A directory entry: its name and its text, or `None` when opening or
      reading it raises. */
  datatype Entry = Entry(name: string, contents: Option<string>)

  /** The glob `*_gemini.jsonl`. */
  predicate IsSummaryFile(name: string) {
    EndsWith(name, "_gemini.jsonl")
  }

  /** The four fields one JSONL line is read into: `content`,
      `metadata.source_file`, `metadata.prompt` and `metadata.summary_type`.
      `None` when decoding or any lookup raises. */
  function LineItem(line: string, parse: Parser): (r: Option<Item>)
    ensures r.Some? ==> parse(line).Some?
    ensures r.Some? ==> StrField(parse(line).value, "content") == Some(r.value.content)
    ensures r.Some? ==> Field(parse(line).value, "metadata").Some?
    ensures r.Some? ==> StrField(Field(parse(line).value, "metadata").value, "prompt") == Some(r.value.prompt)
    ensures r.Some? ==> StrField(Field(parse(line).value, "metadata").value, "source_file") == Some(r.value.source)
    ensures r.Some? ==> StrField(Field(parse(line).value, "metadata").value, "summary_type") == Some(r.value.summaryType)
  {
    match parse(line)
    case None => None
    case Some(data) =>
      match Field(data, "metadata")
      case None => None
      case Some(meta) =>
        match (StrField(data, "content"), StrField(meta, "source_file"), StrField(meta, "prompt"), StrField(meta, "summary_type"))
        case (Some(content), Some(source), Some(prompt), Some(kind)) => Some(Item(content, source, kind, prompt))
        case _ => None
  }

  /** The lines of one file, ingested in order until a line cannot be read
      or its `ingest` raises; the exception is logged, not re-raised. */
  function IngestLines(st: Store, lines: seq<string>, parse: Parser, env: Env): (r: Store)
    ensures |st.documents| <= |r.documents| <= |st.documents| + |lines|
    ensures r.documents[..|st.documents|] == st.documents
    decreases |lines|
  {
    if lines == [] then st
    else
      match LineItem(lines[0], parse)
      case None => st
      case Some(item) =>
        var o := Ingest(st, item, env);
        if o.error.Some? then o.store
        else
          var r := IngestLines(o.store, lines[1..], parse, env);
          assert r.documents[..|st.documents|] == r.documents[..|o.store.documents|][..|st.documents|];
          r
  }

  /** `ingest_gemini_summaries(jsonl_dir)` over the directory listing, in
      the order the glob returns it. It never raises. */
  function IngestGeminiSummaries(st: Store, entries: seq<Entry>, parse: Parser, env: Env): (r: Store)
    ensures |st.documents| <= |r.documents| && r.documents[..|st.documents|] == st.documents
    ensures (forall i :: 0 <= i < |entries| ==> !IsSummaryFile(entries[i].name)) ==> r == st
    decreases |entries|
  {
    if entries == [] then st
    else
      var e := entries[0];
      var next := if IsSummaryFile(e.name) && e.contents.Some? then IngestLines(st, Lines(e.contents.value), parse, env) else st;
      var r := IngestGeminiSummaries(next, entries[1..], parse, env);
      assert r.documents[..|st.documents|] == r.documents[..|next.documents|][..|st.documents|];
      r
  }

  /** A line that cannot be read abandons the rest of its file; what the
      lines before it stored stays. */
  lemma {:induction false} BadLineAbandonsFile(st: Store, before: seq<string>, bad: string, after: seq<string>, parse: Parser, env: Env)
    requires LineItem(bad, parse).None?
    ensures IngestLines(st, before + [bad] + after, parse, env) == IngestLines(st, before, parse, env)
    decreases |before|
  {
    if before == [] {
      assert before + [bad] + after == [bad] + after;
    } else {
      assert (before + [bad] + after)[0] == before[0];
      assert (before + [bad] + after)[1..] == before[1..] + [bad] + after;
      match LineItem(before[0], parse)
      case None =>
      case Some(item) =>
        var o := Ingest(st, item, env);
        if o.error.None? {
          BadLineAbandonsFile(o.store, before[1..], bad, after, parse, env);
        }
    }
  }

  /** The files are handled one after another and a failing file does not
      stop the ones after it: the loader over a listing is the loader over
      its first part followed by the loader over the rest. */
  lemma {:induction false} SummariesCompose(st: Store, first: seq<Entry>, rest: seq<Entry>, parse: Parser, env: Env)
    ensures IngestGeminiSummaries(st, first + rest, parse, env)
         == IngestGeminiSummaries(IngestGeminiSummaries(st, first, parse, env), rest, parse, env)
    decreases |first|
  {
    if first == [] {
      assert first + rest == rest;
    } else {
      assert (first + rest)[0] == first[0];
      assert (first + rest)[1..] == first[1..] + rest;
      var e := first[0];
      var next := if IsSummaryFile(e.name) && e.contents.Some? then IngestLines(st, Lines(e.contents.value), parse, env) else st;
      SummariesCompose(next, first[1..], rest, parse, env);
    }
  }

  /** Entries the glob does not match, and files that cannot be read, leave
      the store as it is. */
  lemma SkippedEntry(st: Store, e: Entry, parse: Parser, env: Env)
    requires !IsSummaryFile(e.name) || e.contents.None?
    ensures IngestGeminiSummaries(st, [e], parse, env) == st
  {
  }

  /** A record whose metadata has no `prompt` string is never ingested: its
      file is abandoned at that line. */
  lemma {:induction false} NoPromptAbandonsFile(st: Store, line: string, rest: seq<string>, parse: Parser, env: Env)
    requires parse(line).Some?
    requires Field(parse(line).value, "metadata").Some?
    requires StrField(Field(parse(line).value, "metadata").value, "prompt").None?
    ensures IngestLines(st, [line] + rest, parse, env) == st
  {
    assert ([line] + rest)[0] == line;
  }

  /** The loader never removes or rewrites a stored row and keeps the store
      well formed, whatever it reads and whichever `ingest` fails. */
  lemma {:induction false} IngestLinesKeepsRows(st: Store, lines: seq<string>, parse: Parser, env: Env)
    requires WellFormed(st)
    ensures WellFormed(IngestLines(st, lines, parse, env))
    ensures |st.documents| <= |IngestLines(st, lines, parse, env).documents|
    ensures IngestLines(st, lines, parse, env).documents[..|st.documents|] == st.documents
    decreases |lines|
  {
    if lines != [] {
      match LineItem(lines[0], parse)
      case None =>
      case Some(item) =>
        var o := Ingest(st, item, env);
        IngestKeepsWellFormed(st, item, env);
        if o.error.None? {
          IngestLinesKeepsRows(o.store, lines[1..], parse, env);
          var docs := IngestLines(st, lines, parse, env).documents;
          assert docs[..|st.documents|] == docs[..|o.store.documents|][..|st.documents|];
        }
    }
  }
}
