/** GeminiService (app/Services/GeminiService.php): the remote embedding and
    generation calls are oracles returning a `CallOutcome`; what the service
    does with their results, the text it sends and its chunker are modelled. */
module Gemini {
  import opened Outcomes
  import opened Text
  import opened Documents
  import Chunker

  // ---------------------------------------------------------------------------
  // createEmbedding

  /** The embedding of `createEmbedding`: the `embedding.values` of a
      successful response, and `[]` on an exception, a non-success status or a
      missing field. A returned vector is nonempty exactly when the call
      delivered a nonempty vector. */
  function EmbeddingOf(o: CallOutcome<seq<real>>): (v: seq<real>)
    ensures o.Delivered() ==> v == o.payload.value
    ensures !o.Delivered() ==> v == []
    ensures v != [] <==> o.Delivered() && o.payload.value != []
  {
    match o
    case Threw => []
    case Responded(ok, values) =>
      if !ok then [] else
      match values
      case Some(vs) => vs
      case None => []
  }

  /** `createEmbedding(text)` with the embedding API as the oracle `api`. */
  function CreateEmbedding(text: string, api: string -> CallOutcome<seq<real>>): (r: seq<real>)
    ensures r != [] <==> api(text).Delivered() && api(text).payload.value != []
    ensures r != [] ==> r == api(text).payload.value
  {
    EmbeddingOf(api(text))
  }

  // ---------------------------------------------------------------------------
  // generateResponse

  const UnavailableReply: string := "Maaf, saya tidak bisa memproses permintaan Anda saat ini."
  const MalformedReply: string := "Maaf, saya tidak bisa memproses permintaan Anda."
  const ExceptionReply: string := "Maaf, terjadi kesalahan saat memproses permintaan Anda."

  /** The single text part sent to the generation API. */
  function GenerationText(prompt: string, context: seq<string>): string
  {
    "Context:\n" + Join(context, '\n') + "\n\nQuestion: " + prompt
  }

  /** The reply chosen from the generation call's outcome, whose payload is
      `candidates[0].content.parts[0].text`. */
  function Reply(o: CallOutcome<string>): (r: string)
    ensures o.Threw? ==> r == ExceptionReply
    ensures o.Responded? && !o.successful ==> r == UnavailableReply
    ensures o.Responded? && o.successful && o.payload.None? ==> r == MalformedReply
    ensures o.Delivered() ==> r == o.payload.value
  {
    match o
    case Threw => ExceptionReply
    case Responded(ok, text) =>
      if !ok then UnavailableReply else
      match text
      case Some(t) => t
      case None => MalformedReply
  }

  /** `generateResponse(prompt, context)` with the generation API as the oracle `api`. */
  function GenerateResponse(prompt: string, context: seq<string>, api: string -> CallOutcome<string>): (r: string)
    ensures var o := api(GenerationText(prompt, context));
      o.Delivered() ==> r == o.payload.value
    ensures var o := api(GenerationText(prompt, context));
      !o.Delivered() ==> r in {UnavailableReply, MalformedReply, ExceptionReply}
  {
    Reply(api(GenerationText(prompt, context)))
  }

  /** The lines of the generation text for any context: "Context:", the lines
      of the context imploded with newlines (so an entry holding a newline
      spreads over several lines), an empty line, and the question line. */
  lemma GenerationTextSplit(prompt: string, context: seq<string>)
    requires '\n' !in prompt
    ensures Split(GenerationText(prompt, context), '\n')
            == ["Context:"] + Split(Join(context, '\n'), '\n') + ["", "Question: " + prompt]
  {
    var body := Join(context, '\n');
    var question := "Question: " + prompt;
    assert '\n' !in question;
    GenerationTextShape(prompt, body);
    LinesAround("Context:", body, question);
  }

  /** When neither the context entries nor the prompt hold a newline: the lines
      are "Context:", the context entries one per line in the given order (a
      single empty line when there are none), an empty line, and the question
      line. */
  lemma GenerationTextLines(prompt: string, context: seq<string>)
    requires Separable(context, '\n') && '\n' !in prompt
    ensures var lines := Split(GenerationText(prompt, context), '\n');
      lines == ["Context:"] + (if context == [] then [""] else context) + ["", "Question: " + prompt]
  {
    var body := Join(context, '\n');
    GenerationTextSplit(prompt, context);
    assert Split(body, '\n') == (if context == [] then [""] else context) by {
      if context != [] {
        SplitJoin(context, '\n');
      }
    }
  }

  /** The generation text with its line breaks made explicit. */
  lemma GenerationTextShape(prompt: string, body: string)
    ensures "Context:\n" + body + "\n\nQuestion: " + prompt
            == "Context:" + ['\n'] + (body + ['\n'] + ("" + ['\n'] + ("Question: " + prompt)))
  {
  }

  /** A head line and a question line around a body, with an empty line
      before the question. */
  lemma LinesAround(head: string, body: string, question: string)
    requires '\n' !in head && '\n' !in question
    ensures Split(head + ['\n'] + (body + ['\n'] + ("" + ['\n'] + question)), '\n')
            == [head] + Split(body, '\n') + ["", question]
  {
    var rest := body + ['\n'] + ("" + ['\n'] + question);
    var lines, tail := Split(body, '\n'), ["", question];
    assert Split(rest, '\n') == lines + tail by {
      BodyThenQuestion(body, question);
    }
    assert Split(head, '\n') == [head] by {
      SplitWhole(head, '\n');
    }
    SplitAround(head, rest, '\n');
    SeqAssoc([head], lines, tail);
  }

  lemma BodyThenQuestion(body: string, question: string)
    requires '\n' !in question
    ensures Split(body + ['\n'] + ("" + ['\n'] + question), '\n') == Split(body, '\n') + ["", question]
  {
    EmptyLineThenQuestion(question);
    SplitAround(body, "" + ['\n'] + question, '\n');
  }

  lemma EmptyLineThenQuestion(question: string)
    requires '\n' !in question
    ensures Split("" + ['\n'] + question, '\n') == ["", question]
  {
    SplitAround("", question, '\n');
    SplitWhole(question, '\n');
  }

  /** A reply equal to none of the three fallbacks is the model's text, taken
      from a successful call. */
  lemma ReplyIsModelText(o: CallOutcome<string>)
    requires Reply(o) !in {UnavailableReply, MalformedReply, ExceptionReply}
    ensures o.Delivered() && Reply(o) == o.payload.value
  {
  }

  // ---------------------------------------------------------------------------
  // findSimilarDocuments

  /** The values bound to the similarity query. */
  function QueryBindings(limit: int := 5): seq<Binding>
  {
    [IntParam(limit)]
  }

  /** The rows the similarity query ranks. The query has no WHERE clause, so
      ordering and LIMIT apply to the whole table. */
  function QueryCandidates(rows: seq<Document>, limit: int := 5): seq<Document>
  {
    rows
  }

  /** The query binds nothing but the limit and ranks every row, whatever
      provider and dimension produced it, untagged rows included. */
  lemma QueryRanksEveryRow(rows: seq<Document>, limit: int)
    ensures QueryBindings(limit) == [IntParam(limit)]
    ensures forall d :: d in QueryCandidates(rows, limit) <==> d in rows
    ensures |QueryCandidates(rows, limit)| == |rows|
  {
  }

  // ---------------------------------------------------------------------------
  // chunkText

  /** `chunkText(text, chunkSize = 800, overlap = 100)`: the shared chunker
      with this service's defaults. */
  method ChunkText(text: string, chunkSize: int := 800, overlap: int := 100) returns (chunks: seq<string>)
    requires overlap < chunkSize
    ensures chunks == Chunker.Chunks(Chunker.Words(text), chunkSize, overlap)
  {
    chunks := Chunker.ChunkText(text, chunkSize, overlap);
  }

  /** With the defaults, n words give ceil(n / 700) chunks of at most 800 words
      each, and splitting a chunk gives back its window of the text. */
  lemma DefaultChunking(text: string)
    ensures var words := Chunker.Words(text); var chunks := Chunker.Chunks(words, 800, 100);
      && |chunks| == Chunker.CeilDiv(|words|, 700)
      && forall k :: 0 <= k < |chunks| ==>
           Split(chunks[k], ' ') == Chunker.Window(words, k, 800, 100)
           && 1 <= |Split(chunks[k], ' ')| <= 800
  {
    var words := Chunker.Words(text);
    Chunker.ChunkCount(words, 800, 100);
    forall k | 0 <= k < |Chunker.Chunks(words, 800, 100)|
      ensures Split(Chunker.Chunks(words, 800, 100)[k], ' ') == Chunker.Window(words, k, 800, 100)
      ensures 1 <= |Split(Chunker.Chunks(words, 800, 100)[k], ' ')| <= 800
    {
      Chunker.ChunkWords(words, k, 800, 100);
    }
  }
}
