/** ChatbotController (app/Http/Controllers/ChatbotController.php): `train`
    chunks an uploaded text, embeds each chunk with GeminiService and stores
    one row per nonempty embedding inside one transaction; `chat` embeds the
    prompt, retrieves similar rows and asks GeminiService for the answer.
    The embedding and generation APIs, the insert and commit faults and the
    similarity search are oracles. */
module Controller {
  import opened Outcomes
  import opened Documents
  import Chunker
  import Gemini
  import HuggingFace

  // ---------------------------------------------------------------------------
  // The table and its transaction

  /** The `documents` table as the controller sees it through Eloquent and
      the `DB` facade: its rows, and the rows it had when the open transaction
      began. */
  class DocumentStore {
    var rows: seq<Document>
    var snapshot: seq<Document>
    var inTransaction: bool

    constructor (initial: seq<Document>)
      ensures rows == initial && !inTransaction
    {
      rows := initial;
      snapshot := initial;
      inTransaction := false;
    }

    /** `DB::beginTransaction()`. */
    method BeginTransaction()
      requires !inTransaction
      modifies this
      ensures inTransaction && rows == old(rows) && snapshot == old(rows)
    {
      snapshot := rows;
      inTransaction := true;
    }

    /** `Document::create(...)`: appends one row. */
    method Create(d: Document)
      modifies this`rows
      ensures rows == old(rows) + [d]
    {
      rows := rows + [d];
    }

    /** `DB::commit()`: the rows written since the transaction began stay. */
    method Commit()
      modifies this`inTransaction
      ensures !inTransaction
    {
      inTransaction := false;
    }

    /** `DB::rollback()`: inside a transaction the table returns to what it
      was when the transaction began; outside one nothing happens. */
    method Rollback()
      modifies this
      ensures !inTransaction
      ensures rows == if old(inTransaction) then old(snapshot) else old(rows)
      ensures snapshot == old(snapshot)
    {
      if inTransaction {
        rows := snapshot;
        inTransaction := false;
      }
    }
  }

  // ---------------------------------------------------------------------------
  // train

  /** The row `train` stores for a chunk: the embedding provider and dimension
      columns are left unset. */
  function ChunkRecord(fileName: string, chunk: string, embedding: seq<real>): Document
  {
    Document(fileName, chunk, embedding, None, None)
  }

  /** The rows stored for `chunks`, in chunk order. */
  function StoredRows(fileName: string, chunks: seq<string>, embedApi: string -> CallOutcome<seq<real>>): seq<Document>
  {
    if chunks == [] then []
    else
      var last := chunks[|chunks| - 1];
      var e := Gemini.CreateEmbedding(last, embedApi);
      StoredRows(fileName, chunks[..|chunks| - 1], embedApi)
        + (if e != [] then [ChunkRecord(fileName, last, e)] else [])
  }

  /** One more chunk adds its record, if its embedding is nonempty. */
  lemma StoredRowsSnoc(fileName: string, chunks: seq<string>, embedApi: string -> CallOutcome<seq<real>>, n: nat)
    requires n < |chunks|
    ensures var e := Gemini.CreateEmbedding(chunks[n], embedApi);
      StoredRows(fileName, chunks[..n + 1], embedApi)
        == StoredRows(fileName, chunks[..n], embedApi) + (if e != [] then [ChunkRecord(fileName, chunks[n], e)] else [])
  {
    assert chunks[..n + 1][..n] == chunks[..n];
  }

  /** The positions of the chunks whose embedding is nonempty, in increasing order. */
  function EmbeddedIndices(chunks: seq<string>, embedApi: string -> CallOutcome<seq<real>>): (idx: seq<nat>)
    ensures forall k :: 0 <= k < |idx| ==> idx[k] < |chunks|
    ensures forall k, l :: 0 <= k < l < |idx| ==> idx[k] < idx[l]
    ensures forall i :: 0 <= i < |chunks| ==>
      (i in idx <==> Gemini.CreateEmbedding(chunks[i], embedApi) != [])
  {
    if chunks == [] then []
    else
      var n := |chunks| - 1;
      var front := EmbeddedIndices(chunks[..n], embedApi);
      assert forall i :: 0 <= i < n ==> chunks[..n][i] == chunks[i];
      front + (if Gemini.CreateEmbedding(chunks[n], embedApi) != [] then [n] else [])
  }

  /** Stored row k is the record of the k-th chunk with a nonempty embedding:
      one row per such chunk, none for the others, in chunk order. */
  lemma {:induction false} StoredRowsByIndex(fileName: string, chunks: seq<string>,
                                             embedApi: string -> CallOutcome<seq<real>>)
    ensures var idx := EmbeddedIndices(chunks, embedApi); var stored := StoredRows(fileName, chunks, embedApi);
      && |stored| == |idx|
      && forall k :: 0 <= k < |idx| ==>
           stored[k] == ChunkRecord(fileName, chunks[idx[k]], Gemini.CreateEmbedding(chunks[idx[k]], embedApi))
  {
    if chunks != [] {
      var n := |chunks| - 1;
      var pre, last := chunks[..n], chunks[n];
      StoredRowsByIndex(fileName, pre, embedApi);
      var e := Gemini.CreateEmbedding(last, embedApi);
      var idx, stored := EmbeddedIndices(pre, embedApi), StoredRows(fileName, pre, embedApi);
      assert StoredRows(fileName, chunks, embedApi)
             == stored + (if e != [] then [ChunkRecord(fileName, last, e)] else []);
      assert EmbeddedIndices(chunks, embedApi) == idx + (if e != [] then [n] else []);
      forall k | 0 <= k < |idx|
        ensures pre[idx[k]] == chunks[idx[k]]
      {
      }
    }
  }

  /** Every stored row carries the uploaded file name, one of the chunks, a
      nonempty embedding, and no provider or dimension tag. */
  lemma {:induction false} StoredRowsShape(fileName: string, chunks: seq<string>,
                                           embedApi: string -> CallOutcome<seq<real>>)
    ensures forall d :: d in StoredRows(fileName, chunks, embedApi) ==>
      && d.sourceFileName == fileName
      && d.text in chunks
      && d.embedding != []
      && d.provider.None? && d.dimension.None?
  {
    if chunks != [] {
      var n := |chunks| - 1;
      StoredRowsShape(fileName, chunks[..n], embedApi);
      assert forall c :: c in chunks[..n] ==> c in chunks;
    }
  }

  /** Rows stored by `train` are never ranked by HuggingFaceService's
      similarity query: its WHERE clause needs the tags `train` leaves unset. */
  lemma TrainedRowsInvisibleToHuggingFace(fileName: string, chunks: seq<string>,
                                          embedApi: string -> CallOutcome<seq<real>>, limit: int)
    ensures HuggingFace.QueryCandidates(StoredRows(fileName, chunks, embedApi), limit) == []
  {
    var stored := StoredRows(fileName, chunks, embedApi);
    StoredRowsShape(fileName, chunks, embedApi);
    HuggingFace.QueryIsolation(stored, limit);
    assert forall k :: 0 <= k < |stored| ==> stored[k] in stored;
  }

  /** The counterpart for Gemini: its query has no WHERE clause, so every row
      `train` stores, whatever the table held before, is ranked. */
  lemma TrainedRowsVisibleToGemini(before: seq<Document>, fileName: string, chunks: seq<string>,
                                   embedApi: string -> CallOutcome<seq<real>>, limit: int)
    ensures var stored := StoredRows(fileName, chunks, embedApi);
      forall k :: 0 <= k < |stored| ==> stored[k] in Gemini.QueryCandidates(before + stored, limit)
  {
    var stored := StoredRows(fileName, chunks, embedApi);
    Gemini.QueryRanksEveryRow(before + stored, limit);
    assert forall k :: 0 <= k < |stored| ==> (before + stored)[|before| + k] == stored[k];
  }

  /** Storing the row of chunk i, which `train` does only for a nonempty
      embedding, throws. */
  predicate FaultAt(chunks: seq<string>, embedApi: string -> CallOutcome<seq<real>>, insertFails: nat -> bool, i: nat)
    requires i < |chunks|
  {
    insertFails(i) && Gemini.CreateEmbedding(chunks[i], embedApi) != []
  }

  /** Storing some chunk's row throws. */
  predicate InsertFault(chunks: seq<string>, embedApi: string -> CallOutcome<seq<real>>, insertFails: nat -> bool)
  {
    exists i: nat :: i < |chunks| && FaultAt(chunks, embedApi, insertFails, i)
  }

  /** No chunk below n has a failing insert. */
  predicate NoFaultBelow(chunks: seq<string>, embedApi: string -> CallOutcome<seq<real>>, insertFails: nat -> bool, n: nat)
    requires n <= |chunks|
  {
    n == 0 || (NoFaultBelow(chunks, embedApi, insertFails, n - 1) && !FaultAt(chunks, embedApi, insertFails, n - 1))
  }

  lemma {:induction false} NoFaultBelowAll(chunks: seq<string>, embedApi: string -> CallOutcome<seq<real>>,
                                           insertFails: nat -> bool, n: nat)
    requires n <= |chunks|
    ensures NoFaultBelow(chunks, embedApi, insertFails, n)
            <==> forall i: nat :: i < n ==> !FaultAt(chunks, embedApi, insertFails, i)
  {
    if n > 0 {
      NoFaultBelowAll(chunks, embedApi, insertFails, n - 1);
    }
  }

  datatype TrainOutcome = Trained(successCount: nat, totalChunks: nat) | TrainFailed

  /** The `foreach` of `train`, inside the open transaction: embeds each chunk
      and stores a row for each nonempty embedding. `faulted` reports an insert
      that threw, which leaves the loop at once with the transaction still
      open; otherwise the table gained exactly `StoredRows`, and `successCount`
      is their number. */
  method EmbedAndStore(store: DocumentStore, fileName: string, chunks: seq<string>,
                       embedApi: string -> CallOutcome<seq<real>>, insertFails: nat -> bool)
    returns (faulted: bool, successCount: nat)
    requires store.inTransaction
    modifies store`rows
    ensures faulted == !NoFaultBelow(chunks, embedApi, insertFails, |chunks|)
    ensures !faulted ==>
      && store.rows == old(store.rows) + StoredRows(fileName, chunks, embedApi)
      && successCount == |StoredRows(fileName, chunks, embedApi)|
    ensures faulted ==> exists i: nat ::
      && i < |chunks|
      && FaultAt(chunks, embedApi, insertFails, i)
      && NoFaultBelow(chunks, embedApi, insertFails, i)
      && store.rows == old(store.rows) + StoredRows(fileName, chunks[..i], embedApi)
      && successCount == |StoredRows(fileName, chunks[..i], embedApi)|
  {
    successCount := 0;
    var index := 0;
    while index < |chunks|
      invariant 0 <= index <= |chunks|
      invariant store.rows == old(store.rows) + StoredRows(fileName, chunks[..index], embedApi)
      invariant successCount == |StoredRows(fileName, chunks[..index], embedApi)|
      invariant NoFaultBelow(chunks, embedApi, insertFails, index)
    {
      var chunk := chunks[index];
      var embedding := Gemini.CreateEmbedding(chunk, embedApi);
      StoredRowsSnoc(fileName, chunks, embedApi, index);
      if embedding != [] {
        if insertFails(index) {
          FaultStops(chunks, embedApi, insertFails, index);
          assert FaultAt(chunks, embedApi, insertFails, index);
          return true, successCount;
        }
        store.Create(ChunkRecord(fileName, chunk, embedding));
        successCount := successCount + 1;
      }
      index := index + 1;
    }
    assert chunks[..index] == chunks;
    faulted := false;
  }

  /** A fault at i means a fault below every later bound. */
  lemma {:induction false} FaultStops(chunks: seq<string>, embedApi: string -> CallOutcome<seq<real>>,
                                      insertFails: nat -> bool, i: nat)
    requires i < |chunks| && FaultAt(chunks, embedApi, insertFails, i)
    ensures !NoFaultBelow(chunks, embedApi, insertFails, |chunks|)
  {
    NoFaultBelowAll(chunks, embedApi, insertFails, |chunks|);
  }

  /** `train`: `extracted` is the text of the validated upload, or `None` when
      validation or extraction threw; `insertFails(i)` says whether storing the
      row of chunk i throws, and `commitFails` whether the commit does. On
      success the table gains exactly the rows of `StoredRows`, in chunk order,
      and the reported count is their number; on any failure after the
      transaction began the table is left as it was. */
  method Train(store: DocumentStore, fileName: string, extracted: Option<string>,
               embedApi: string -> CallOutcome<seq<real>>, insertFails: nat -> bool, commitFails: bool)
    returns (outcome: TrainOutcome)
    requires !store.inTransaction
    modifies store
    ensures !store.inTransaction
    ensures outcome.TrainFailed? ==> store.rows == old(store.rows)
    ensures extracted.None? ==> outcome.TrainFailed?
    ensures extracted.Some? ==>
      var chunks := Chunker.Chunks(Chunker.Words(extracted.value), 800, 100);
      && (outcome.TrainFailed? <==> commitFails || InsertFault(chunks, embedApi, insertFails))
      && (outcome.Trained? ==>
            && store.rows == old(store.rows) + StoredRows(fileName, chunks, embedApi)
            && outcome.successCount == |StoredRows(fileName, chunks, embedApi)|
            && outcome.totalChunks == |chunks|)
  {
    if extracted.None? {
      store.Rollback();
      return TrainFailed;
    }
    var chunks := Gemini.ChunkText(extracted.value);
    store.BeginTransaction();
    var faulted, successCount := EmbedAndStore(store, fileName, chunks, embedApi, insertFails);
    NoFaultBelowAll(chunks, embedApi, insertFails, |chunks|);
    if faulted || commitFails {
      store.Rollback();
      return TrainFailed;
    }
    store.Commit();
    outcome := Trained(successCount, |chunks|);
  }

  // ---------------------------------------------------------------------------
  // chat

  const UnavailableReply: string := "Maaf, saya tidak bisa memproses permintaan Anda saat ini."
  const ErrorReply: string := "Maaf, terjadi kesalahan saat memproses permintaan Anda."

  /** A row returned by the similarity search. */
  datatype SearchRow = SearchRow(text: string, similarity: real)

  /** What the similarity search did: it threw, or it returned rows in rank order. */
  datatype SearchOutcome = SearchThrew | Found(rows: seq<SearchRow>)

  /** `array_map(fn($doc) => $doc->text, $similarDocs)`. */
  function ContextOf(rows: seq<SearchRow>): (context: seq<string>)
    ensures |context| == |rows|
    ensures forall i :: 0 <= i < |rows| ==> context[i] == rows[i].text
  {
    seq(|rows|, i requires 0 <= i < |rows| => rows[i].text)
  }

  /** `chat`: `prompt` is the validated prompt, or `None` when validation
      threw. The prompt is embedded; an empty embedding ends the request with
      an apology; otherwise the search runs on the embedding and the texts of
      its rows, in rank order, go to generation, whose reply is returned as
      it is. Any exception ends the request with the error reply. */
  function Chat(prompt: Option<string>, embedApi: string -> CallOutcome<seq<real>>,
                search: seq<real> -> SearchOutcome, chatApi: string -> CallOutcome<string>): (reply: string)
    ensures prompt.None? ==> reply == ErrorReply
    ensures prompt.Some? && Gemini.CreateEmbedding(prompt.value, embedApi) == [] ==> reply == UnavailableReply
    ensures prompt.Some? && Gemini.CreateEmbedding(prompt.value, embedApi) != [] ==>
      match search(Gemini.CreateEmbedding(prompt.value, embedApi))
      case SearchThrew => reply == ErrorReply
      case Found(rows) => reply == Gemini.Reply(chatApi(Gemini.GenerationText(prompt.value, ContextOf(rows))))
  {
    match prompt
    case None => ErrorReply
    case Some(p) =>
      var embedding := Gemini.CreateEmbedding(p, embedApi);
      if embedding == [] then UnavailableReply
      else
        match search(embedding)
        case SearchThrew => ErrorReply
        case Found(rows) => Gemini.GenerateResponse(p, ContextOf(rows), chatApi)
  }

  /** When the prompt embedding is empty, neither the search nor the
      generation API influences the reply: they are not consulted. */
  lemma ChatShortCircuit(prompt: string, embedApi: string -> CallOutcome<seq<real>>,
                         search: seq<real> -> SearchOutcome, chatApi: string -> CallOutcome<string>,
                         search': seq<real> -> SearchOutcome, chatApi': string -> CallOutcome<string>)
    requires Gemini.CreateEmbedding(prompt, embedApi) == []
    ensures Chat(Some(prompt), embedApi, search, chatApi) == Chat(Some(prompt), embedApi, search', chatApi')
    ensures Chat(Some(prompt), embedApi, search, chatApi) == UnavailableReply
  {
  }

  /** When the search returns rows and the generation call delivers a text,
      the reply is that text verbatim, and the generation input lists the
      row texts one per line in rank order. */
  lemma ChatForwardsGeneration(prompt: string, embedApi: string -> CallOutcome<seq<real>>,
                               search: seq<real> -> SearchOutcome, chatApi: string -> CallOutcome<string>)
    requires Gemini.CreateEmbedding(prompt, embedApi) != []
    requires search(Gemini.CreateEmbedding(prompt, embedApi)).Found?
    requires var rows := search(Gemini.CreateEmbedding(prompt, embedApi)).rows;
      chatApi(Gemini.GenerationText(prompt, ContextOf(rows))).Delivered()
    ensures var rows := search(Gemini.CreateEmbedding(prompt, embedApi)).rows;
      Chat(Some(prompt), embedApi, search, chatApi)
        == chatApi(Gemini.GenerationText(prompt, ContextOf(rows))).payload.value
  {
  }

  /** The controller's two replies are literally GeminiService's
      non-success and exception replies, so a caller cannot tell an empty
      prompt embedding from a failed generation call. */
  lemma RepliesCoincideWithGemini()
    ensures UnavailableReply == Gemini.UnavailableReply
    ensures ErrorReply == Gemini.ExceptionReply
  {
  }
}
